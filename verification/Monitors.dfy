/** A lock and its condition variables among any number of threads
    (threads/synch.c). */
module Monitors {
  import opened Options
  import opened Counting

  // A step is a section with interrupts off, or one access to shared memory: other
  // threads may run inside cond_wait and cond_signal.
  //
  // Where another thread may run: between sema_down and the store to the holder,
  // between the holder's clearing and sema_up, between lock_release and sema_down
  // in cond_wait, and between the pop and sema_up in cond_signal.

  datatype Pc =
    | Out                        // not using the lock
    | Blocked                    // in the queue of the lock's semaphore
    | Woken                      // unblocked by its sema_up, about to try again
    | Got                        // through sema_down, holder not stored yet
    | Holds
    | Popped(w: nat)             // in cond_signal: W is off the list, its semaphore not up yet
    | Released                   // in lock_release: holder cleared, semaphore not up yet
    | Queued(c: nat)             // in cond_wait: on the list of condition C, lock still held
    | ReleasedWait(c: nat)       // in cond_wait: holder cleared, lock's semaphore not up yet
    | WaitDown(c: nat)           // in cond_wait: lock released, own semaphore not down yet
    | WaitBlocked(c: nat)        // in cond_wait: blocked on its own semaphore
    | WaitWoken(c: nat)          // in cond_wait: unblocked by a signal
    | Reacquire                  // in cond_wait: about to take the lock again

  /** The lock's semaphore and holder, each condition's list of waiters, and the
      value of the semaphore that each waiting thread has of its own. */
  datatype State = State(value: nat, waiters: seq<nat>, holder: Option<nat>,
                         conds: seq<seq<nat>>, own: seq<nat>, pcs: seq<Pc>)

  datatype Step =
    | Down(t: nat)               // a pass of sema_down on the lock's semaphore
    | TryDown(t: nat)
    | StoreHolder(t: nat)
    | ClearHolder(t: nat)        // lock_release, first half
    | Up(t: nat)                 // lock_release, second half
    | Wait(t: nat, c: nat)       // cond_wait: a fresh semaphore, on the list
    | OwnDown(t: nat)            // a pass of sema_down on the thread's own semaphore
    | Signal(t: nat, c: nat)     // cond_signal: the first of the list is off it
    | SignalUp(t: nat)           // cond_signal: its semaphore is up

  predicate Enabled(s: State, step: Step)
  {
    var n := |s.pcs|;
    match step
    case Down(t) => t < n && (s.pcs[t].Out? || s.pcs[t].Woken? || s.pcs[t].Reacquire?)
    case TryDown(t) => t < n && s.pcs[t].Out?
    case StoreHolder(t) => t < n && s.pcs[t].Got?
    case ClearHolder(t) => t < n && (s.pcs[t].Holds? || s.pcs[t].Queued?)
    case Up(t) => t < n && (s.pcs[t].Released? || s.pcs[t].ReleasedWait?)
    case Wait(t, c) => t < n && s.pcs[t].Holds? && c < |s.conds|
    case OwnDown(t) => t < n && (s.pcs[t].WaitDown? || s.pcs[t].WaitWoken?)
    case Signal(t, c) => t < n && s.pcs[t].Holds? && c < |s.conds|
    case SignalUp(t) => t < n && s.pcs[t].Popped?
  }

  ghost predicate Sane(s: State) {
    && |s.own| == |s.pcs|
    && (forall t :: t in s.waiters ==> t < |s.pcs|)
    && (forall c, t :: 0 <= c < |s.conds| && t in s.conds[c] ==> t < |s.pcs|)
    && (forall t :: 0 <= t < |s.pcs| && s.pcs[t].Popped? ==> s.pcs[t].w < |s.pcs|)
  }

  ghost function Next(s: State, step: Step): State
    requires Enabled(s, step) && Sane(s)
  {
    match step
    case Down(t) =>
      if s.value == 0 then s.(waiters := s.waiters + [t], pcs := s.pcs[t := Blocked])
      else s.(value := s.value - 1, pcs := s.pcs[t := Got])
    case TryDown(t) =>
      if s.value == 0 then s else s.(value := s.value - 1, pcs := s.pcs[t := Got])
    case StoreHolder(t) => s.(holder := Some(t), pcs := s.pcs[t := Holds])
    case ClearHolder(t) =>
      s.(holder := None, pcs := s.pcs[t := if s.pcs[t].Queued? then ReleasedWait(s.pcs[t].c) else Released])
    case Up(t) =>
      var s1 := s.(value := s.value + 1,
                   pcs := s.pcs[t := if s.pcs[t].ReleasedWait? then WaitDown(s.pcs[t].c) else Out]);
      if s.waiters == [] then s1
      else
        assert s.waiters[0] in s.waiters;
        s1.(waiters := s.waiters[1..], pcs := s1.pcs[s.waiters[0] := Woken])
    case Wait(t, c) => WaitBegun(s, t, c)
    case OwnDown(t) =>
      if s.own[t] == 0 then s.(pcs := s.pcs[t := WaitBlocked(s.pcs[t].c)])
      else s.(own := s.own[t := s.own[t] - 1], pcs := s.pcs[t := Reacquire])
    case Signal(t, c) =>
      if s.conds[c] == [] then s
      else
        assert s.conds[c][0] in s.conds[c];
        s.(conds := s.conds[c := s.conds[c][1..]], pcs := s.pcs[t := Popped(s.conds[c][0])])
    case SignalUp(t) => SignalDone(s, t)
  }

  function WaitBegun(s: State, t: nat, c: nat): State
    requires t < |s.pcs| == |s.own| && c < |s.conds|
  {
    s.(own := s.own[t := 0], conds := s.conds[c := s.conds[c] + [t]], pcs := s.pcs[t := Queued(c)])
  }

  function SignalDone(s: State, t: nat): State
    requires t < |s.pcs| == |s.own| && s.pcs[t].Popped? && s.pcs[t].w < |s.pcs|
  {
    var w := s.pcs[t].w;
    var pcs := s.pcs[t := Holds];
    s.(own := s.own[w := s.own[w] + 1],
       pcs := if pcs[w].WaitBlocked? then pcs[w := WaitWoken(pcs[w].c)] else pcs)
  }

  // ----- What every step keeps: the lock -----

  /** Between a thread's sema_down and its sema_up. */
  predicate Owns(pc: Pc) {
    pc.Got? || pc.Holds? || pc.Popped? || pc.Released? || pc.Queued? || pc.ReleasedWait?
  }

  /** From the store to lock->holder until it is cleared. */
  predicate IsHolder(pc: Pc) { pc.Holds? || pc.Popped? || pc.Queued? }

  predicate IsWoken(pc: Pc) { pc.Woken? }

  ghost predicate HolderOk(s: State) {
    && (forall t :: 0 <= t < |s.pcs| ==> (IsHolder(s.pcs[t]) <==> s.holder == Some(t)))
    && (s.holder.Some? ==> s.holder.value < |s.pcs|)
  }

  ghost predicate QueueOk(s: State) {
    && Distinct(s.waiters)
    && forall t: nat :: t in s.waiters <==> t < |s.pcs| && s.pcs[t].Blocked?
  }

  ghost predicate LockInv(s: State) {
    && s.value + Count(s.pcs, Owns) == 1
    && HolderOk(s)
    && QueueOk(s)
    && (s.waiters != [] ==> s.value <= Count(s.pcs, IsWoken))
  }

  // ----- What every step keeps: the conditions -----

  /** In cond_wait, and not unblocked by a signal yet. */
  predicate Waiting(pc: Pc) { pc.Queued? || pc.ReleasedWait? || pc.WaitDown? || pc.WaitBlocked? }

  predicate OnList(s: State, t: nat)
    requires t < |s.pcs| && Waiting(s.pcs[t])
  {
    s.pcs[t].c < |s.conds| && t in s.conds[s.pcs[t].c]
  }

  /** The holder is in cond_signal, with T off its list. */
  predicate BeingSignalled(s: State, t: nat) {
    s.holder.Some? && s.holder.value < |s.pcs| && s.pcs[s.holder.value] == Popped(t)
  }

  /** Thread T's own semaphore is up exactly from the signal on. */
  ghost predicate ThreadOk(s: State, t: nat)
    requires t < |s.pcs| == |s.own|
  {
    if Waiting(s.pcs[t]) then
      && s.pcs[t].c < |s.conds|
      && !(OnList(s, t) && BeingSignalled(s, t))
      && s.own[t] == (if OnList(s, t) || BeingSignalled(s, t) then 0 else 1)
      && (s.pcs[t].WaitBlocked? ==> s.own[t] == 0)
    else !BeingSignalled(s, t) && (s.pcs[t].WaitWoken? ==> s.own[t] == 1)
  }

  ghost predicate ListOk(s: State, c: nat)
    requires c < |s.conds|
  {
    && Distinct(s.conds[c])
    && forall t :: t in s.conds[c] ==> t < |s.pcs| && Waiting(s.pcs[t]) && s.pcs[t].c == c
  }

  ghost predicate CondInv(s: State) {
    && |s.own| == |s.pcs|
    && (forall c :: 0 <= c < |s.conds| ==> ListOk(s, c))
    && (forall t :: 0 <= t < |s.pcs| ==> ThreadOk(s, t))
    && (forall t :: 0 <= t < |s.pcs| && s.pcs[t].Popped? ==> s.pcs[t].w < |s.pcs|)
  }

  ghost predicate Inv(s: State) { LockInv(s) && CondInv(s) }

  lemma InvSane(s: State)
    requires Inv(s)
    ensures Sane(s)
  {
    hide ThreadOk, Distinct;
    forall c, t | 0 <= c < |s.conds| && t in s.conds[c] ensures t < |s.pcs| { assert ListOk(s, c); }
  }

  /** lock_init and cond_init. */
  ghost function Start(threads: nat, conds: nat): (s: State)
    ensures Inv(s)
  {
    var s := State(1, [], None, seq(conds, _ => []), seq(threads, _ => 0), seq(threads, _ => Out));
    CountSome(s.pcs, Owns);
    s
  }

  // ----- The lock, step by step -----

  /** One thread moves: what the counts become. */
  lemma Moved(pcs: seq<Pc>, t: nat, pc: Pc)
    requires t < |pcs|
    ensures Count(pcs[t := pc], Owns) == Count(pcs, Owns) - (if Owns(pcs[t]) then 1 else 0) + (if Owns(pc) then 1 else 0)
    ensures Count(pcs[t := pc], IsWoken)
            == Count(pcs, IsWoken) - (if IsWoken(pcs[t]) then 1 else 0) + (if IsWoken(pc) then 1 else 0)
  {
    CountUpdate(pcs, t, pc, Owns);
    CountUpdate(pcs, t, pc, IsWoken);
  }

  /** Two owners are one. */
  lemma OneOwner(s: State, t: nat, u: nat)
    requires s.value + Count(s.pcs, Owns) == 1 && t < |s.pcs| && u < |s.pcs| && Owns(s.pcs[t]) && Owns(s.pcs[u])
    ensures t == u && s.value == 0
  {
    if t < u { CountTwo(s.pcs, t, u, Owns); }
    if u < t { CountTwo(s.pcs, u, t, Owns); }
    CountSome(s.pcs, Owns);
  }

  lemma DownLock(s: State, t: nat)
    requires LockInv(s) && t < |s.pcs| && (s.pcs[t].Out? || s.pcs[t].Woken? || s.pcs[t].Reacquire?)
    ensures s.value == 0 ==> LockInv(s.(waiters := s.waiters + [t], pcs := s.pcs[t := Blocked]))
    ensures s.value > 0 ==> LockInv(s.(value := s.value - 1, pcs := s.pcs[t := Got]))
  {
    hide Distinct;
    Moved(s.pcs, t, Blocked);
    Moved(s.pcs, t, Got);
    PushDistinct(s.waiters, t);
  }

  lemma StoreLock(s: State, t: nat)
    requires LockInv(s) && t < |s.pcs| && s.pcs[t].Got?
    ensures s.holder == None
    ensures LockInv(s.(holder := Some(t), pcs := s.pcs[t := Holds]))
  {
    hide Distinct;
    if s.holder.Some? { OneOwner(s, s.holder.value, t); }
    Moved(s.pcs, t, Holds);
  }

  lemma ClearLock(s: State, t: nat, pc: Pc)
    requires LockInv(s) && t < |s.pcs| && (s.pcs[t].Holds? || s.pcs[t].Queued?)
    requires pc.Released? || pc.ReleasedWait?
    ensures LockInv(s.(holder := None, pcs := s.pcs[t := pc]))
  {
    hide Distinct;
    Moved(s.pcs, t, pc);
  }

  lemma UpLock(s: State, t: nat, pc: Pc)
    requires LockInv(s) && t < |s.pcs| && (s.pcs[t].Released? || s.pcs[t].ReleasedWait?)
    requires pc.Out? || pc.WaitDown?
    ensures s.waiters != [] ==> s.waiters[0] < |s.pcs| && s.waiters[0] != t && s.pcs[s.waiters[0]].Blocked?
    ensures var s1 := s.(value := s.value + 1, pcs := s.pcs[t := pc]);
            LockInv(if s.waiters == [] then s1
                    else s1.(waiters := s.waiters[1..], pcs := s1.pcs[s.waiters[0] := Woken]))
  {
    hide Distinct;
    Moved(s.pcs, t, pc);
    OneOwner(s, t, t);
    if s.waiters != [] {
      assert s.waiters[0] in s.waiters;
      PopDistinct(s.waiters);
      Moved(s.pcs[t := pc], s.waiters[0], Woken);
    }
  }

  /** Steps that are none of the lock's business. */
  lemma SameLock(s: State, s': State)
    requires LockInv(s) && s'.value == s.value && s'.waiters == s.waiters && s'.holder == s.holder
    requires |s'.pcs| == |s.pcs|
    requires forall t :: 0 <= t < |s.pcs| ==>
               Owns(s'.pcs[t]) == Owns(s.pcs[t]) && IsHolder(s'.pcs[t]) == IsHolder(s.pcs[t])
               && s'.pcs[t].Woken? == s.pcs[t].Woken? && s'.pcs[t].Blocked? == s.pcs[t].Blocked?
    ensures LockInv(s')
  {
    CountSame(s.pcs, s'.pcs, Owns);
    CountSame(s.pcs, s'.pcs, IsWoken);
  }

  lemma LockStep(s: State, step: Step)
    requires LockInv(s) && Sane(s) && Enabled(s, step)
    ensures LockInv(Next(s, step))
  {
    hide LockInv;
    match step
    case Down(t) => DownLock(s, t);
    case TryDown(t) => DownLock(s, t);
    case StoreHolder(t) => StoreLock(s, t);
    case ClearHolder(t) => ClearLock(s, t, if s.pcs[t].Queued? then ReleasedWait(s.pcs[t].c) else Released);
    case Up(t) => UpLock(s, t, if s.pcs[t].ReleasedWait? then WaitDown(s.pcs[t].c) else Out);
    case Wait(t, c) => SameLock(s, Next(s, step));
    case OwnDown(t) => SameLock(s, Next(s, step));
    case Signal(t, c) => SameLock(s, Next(s, step));
    case SignalUp(t) => SameLock(s, Next(s, step));
  }

  // ----- The conditions, step by step -----

  /** A thread's part of the invariant depends on its own state, on its list and
      on what the holder is doing. */
  lemma SameThread(s: State, s': State, t: nat)
    requires t < |s.pcs| == |s.own| == |s'.pcs| == |s'.own| && |s'.conds| == |s.conds| && ThreadOk(s, t)
    requires s'.own[t] == s.own[t] && BeingSignalled(s', t) == BeingSignalled(s, t)
    requires Waiting(s.pcs[t]) ==>
               && Waiting(s'.pcs[t]) && s'.pcs[t].c == s.pcs[t].c && OnList(s', t) == OnList(s, t)
               && (s'.pcs[t].WaitBlocked? ==> s.pcs[t].WaitBlocked?)
    requires !Waiting(s.pcs[t]) ==> !Waiting(s'.pcs[t]) && (s'.pcs[t].WaitWoken? ==> s.pcs[t].WaitWoken?)
    ensures ThreadOk(s', t)
  {
  }

  lemma SameList(s: State, s': State, c: nat)
    requires c < |s.conds| == |s'.conds| && ListOk(s, c) && s'.conds[c] == s.conds[c] && |s'.pcs| == |s.pcs|
    requires forall t :: 0 <= t < |s.pcs| && t in s.conds[c] ==> s'.pcs[t] == s.pcs[t] || SameWait(s.pcs[t], s'.pcs[t])
    ensures ListOk(s', c)
  {
  }

  predicate SameWait(pc: Pc, pc': Pc) { Waiting(pc) && Waiting(pc') && pc.c == pc'.c }

  /** Steps of the lock: threads move outside cond_wait, or keep waiting for the
      same condition, and no signal begins or ends. */
  lemma LockCond(s: State, s': State)
    requires CondInv(s) && |s'.pcs| == |s.pcs| && s'.own == s.own && s'.conds == s.conds
    requires forall t: nat :: t < |s.pcs| ==> BeingSignalled(s', t) == BeingSignalled(s, t)
    requires forall t :: 0 <= t < |s.pcs| ==>
               || s'.pcs[t] == s.pcs[t]
               || (SameWait(s.pcs[t], s'.pcs[t]) && !s'.pcs[t].WaitBlocked?)
               || (!Waiting(s.pcs[t]) && !Waiting(s'.pcs[t]) && !s'.pcs[t].WaitWoken? && !s'.pcs[t].Popped?)
    ensures CondInv(s')
  {
    hide BeingSignalled, ThreadOk, ListOk;
    forall c | 0 <= c < |s'.conds| ensures ListOk(s', c) {
      OnlyWaiting(s, c);
      SameList(s, s', c);
    }
    forall t | 0 <= t < |s'.pcs| ensures ThreadOk(s', t) { SameThread(s, s', t); }
  }

  lemma OnlyWaiting(s: State, c: nat)
    requires c < |s.conds| && ListOk(s, c)
    ensures forall t :: t in s.conds[c] ==> t < |s.pcs| && Waiting(s.pcs[t])
  {
  }

  lemma NotSignalling(s: State, t: nat)
    requires HolderOk(s) && s.holder == Some(t) && t < |s.pcs| && !s.pcs[t].Popped?
    ensures forall u: nat :: !BeingSignalled(s, u)
  {
  }

  /** cond_wait begins: T, which holds the lock, is on no list yet. */
  lemma WaitCond(s: State, t: nat, c: nat)
    requires HolderOk(s) && CondInv(s) && t < |s.pcs| && s.pcs[t].Holds? && c < |s.conds|
    ensures CondInv(WaitBegun(s, t, c))
  {
    hide Distinct;
    var s' := WaitBegun(s, t, c);
    NotSignalling(s, t);
    assert ListOk(s, c);
    PushDistinct(s.conds[c], t);
    forall d | 0 <= d < |s'.conds| ensures ListOk(s', d) { assert ListOk(s, d); }
    forall u | 0 <= u < |s'.pcs| ensures ThreadOk(s', u) {
      assert ThreadOk(s, u);
      assert !BeingSignalled(s', u);
    }
  }

  lemma OwnDownCond(s: State, t: nat)
    requires HolderOk(s) && CondInv(s) && t < |s.pcs| && (s.pcs[t].WaitDown? || s.pcs[t].WaitWoken?)
    ensures s.pcs[t].WaitWoken? ==> s.own[t] == 1
    ensures s.own[t] == 0 ==> CondInv(s.(pcs := s.pcs[t := WaitBlocked(s.pcs[t].c)]))
    ensures s.own[t] != 0 ==> CondInv(s.(own := s.own[t := s.own[t] - 1], pcs := s.pcs[t := Reacquire]))
  {
    hide Distinct;
    var s' := if s.own[t] == 0 then s.(pcs := s.pcs[t := WaitBlocked(s.pcs[t].c)])
              else s.(own := s.own[t := s.own[t] - 1], pcs := s.pcs[t := Reacquire]);
    assert ThreadOk(s, t);
    forall d | 0 <= d < |s'.conds| ensures ListOk(s', d) { assert ListOk(s, d); }
    forall u | 0 <= u < |s'.pcs| ensures ThreadOk(s', u) { assert ThreadOk(s, u); }
  }

  /** cond_signal takes the longest waiting thread off the list. */
  lemma SignalCond(s: State, t: nat, c: nat)
    requires HolderOk(s) && CondInv(s) && t < |s.pcs| && s.pcs[t].Holds? && c < |s.conds| && s.conds[c] != []
    ensures CondInv(s.(conds := s.conds[c := s.conds[c][1..]], pcs := s.pcs[t := Popped(s.conds[c][0])]))
  {
    hide Distinct;
    var w := s.conds[c][0];
    var s' := s.(conds := s.conds[c := s.conds[c][1..]], pcs := s.pcs[t := Popped(w)]);
    NotSignalling(s, t);
    assert ListOk(s, c) && w in s.conds[c];
    PopDistinct(s.conds[c]);
    forall d | 0 <= d < |s'.conds| ensures ListOk(s', d) { assert ListOk(s, d); }
    forall u | 0 <= u < |s'.pcs| ensures ThreadOk(s', u) {
      assert ThreadOk(s, u);
      assert BeingSignalled(s', u) <==> u == w;
    }
  }

  lemma SignalUpCond(s: State, t: nat)
    requires HolderOk(s) && CondInv(s) && t < |s.pcs| && s.pcs[t].Popped?
    ensures s.pcs[t].w < |s.pcs| && s.pcs[t].w != t && Waiting(s.pcs[s.pcs[t].w]) && s.own[s.pcs[t].w] == 0
    ensures CondInv(SignalDone(s, t))
  {
    hide Distinct;
    var w, s' := s.pcs[t].w, SignalDone(s, t);
    assert BeingSignalled(s, w) && ThreadOk(s, w);
    forall d | 0 <= d < |s'.conds| ensures ListOk(s', d) { assert ListOk(s, d); }
    forall u | 0 <= u < |s'.pcs| ensures ThreadOk(s', u) {
      assert ThreadOk(s, u);
      assert BeingSignalled(s, u) <==> u == w;
      assert !BeingSignalled(s', u);
    }
  }

  lemma UpCond(s: State, t: nat)
    requires LockInv(s) && CondInv(s) && Sane(s) && Enabled(s, Up(t))
    ensures CondInv(Next(s, Up(t)))
  {
    hide CondInv, ThreadOk, ListOk, Distinct, Count, LockInv;
    UpLock(s, t, if s.pcs[t].ReleasedWait? then WaitDown(s.pcs[t].c) else Out);
    LockCond(s, Next(s, Up(t)));
  }

  lemma CondStep(s: State, step: Step)
    requires LockInv(s) && CondInv(s) && Sane(s) && Enabled(s, step)
    ensures CondInv(Next(s, step))
  {
    hide CondInv, ThreadOk, ListOk, Distinct, Count;
    var s' := Next(s, step);
    match step
    case Down(t) => LockCond(s, s');
    case TryDown(t) => LockCond(s, s');
    case StoreHolder(t) => StoreLock(s, t); LockCond(s, s');
    case ClearHolder(t) => NotSignalling(s, t); LockCond(s, s');
    case Up(t) => UpCond(s, t);
    case Wait(t, c) => WaitCond(s, t, c);
    case OwnDown(t) => OwnDownCond(s, t);
    case Signal(t, c) => if s.conds[c] != [] { SignalCond(s, t, c); }
    case SignalUp(t) => SignalUpCond(s, t);
  }

  // ----- All interleavings -----

  /** Every step keeps the invariant. */
  lemma StepInv(s: State, step: Step)
    requires Inv(s) && Enabled(s, step)
    ensures Sane(s)
    ensures Inv(Next(s, step))
  {
    hide LockInv, CondInv;
    InvSane(s);
    LockStep(s, step);
    CondStep(s, step);
  }

  /** S leads to T by the steps, in this order. */
  ghost predicate Leads(s: State, steps: seq<Step>, t: State)
    requires Inv(s)
    decreases |steps|
  {
    if steps == [] then t == s
    else Enabled(s, steps[0]) && (StepInv(s, steps[0]); Leads(Next(s, steps[0]), steps[1..], t))
  }

  lemma {:induction false} LeadsInv(s: State, steps: seq<Step>, t: State)
    requires Inv(s) && Leads(s, steps, t)
    ensures Inv(t)
    decreases |steps|
  {
    hide Inv;
    if steps != [] {
      StepInv(s, steps[0]);
      LeadsInv(Next(s, steps[0]), steps[1..], t);
    }
  }

  /** Over all interleavings: at most one thread is between its sema_down and its
      sema_up on the lock, so at most one holds it; the holder field names the one
      that does; and a free lock with a thread blocked on it means that a woken
      thread is about to get it. */
  lemma AllInterleavings(threads: nat, conds: nat, steps: seq<Step>, s: State)
    requires Leads(Start(threads, conds), steps, s)
    ensures forall t, u :: 0 <= t < |s.pcs| && 0 <= u < |s.pcs| && Owns(s.pcs[t]) && Owns(s.pcs[u]) ==> t == u
    ensures forall t :: 0 <= t < |s.pcs| ==> (IsHolder(s.pcs[t]) <==> s.holder == Some(t))
    ensures (exists t :: 0 <= t < |s.pcs| && Owns(s.pcs[t])) <==> s.value == 0
    ensures s.value > 0 && (exists t :: 0 <= t < |s.pcs| && s.pcs[t].Blocked?) ==>
              exists t :: 0 <= t < |s.pcs| && s.pcs[t].Woken?
  {
    hide CondInv, Distinct, Count;
    LeadsInv(Start(threads, conds), steps, s);
    forall t: nat, u: nat | t < |s.pcs| && u < |s.pcs| && Owns(s.pcs[t]) && Owns(s.pcs[u]) ensures t == u {
      OneOwner(s, t, u);
    }
    CountSome(s.pcs, Owns);
    CountSome(s.pcs, IsWoken);
    assert forall t: nat :: t < |s.pcs| && s.pcs[t].Blocked? ==> t in s.waiters;
  }

  // ----- Signals -----

  /** A signal has reached T, which has not got past its own semaphore. */
  predicate Signalled(s: State, t: nat) {
    && t < |s.pcs| == |s.own| && s.own[t] == 1
    && (s.pcs[t].Queued? || s.pcs[t].ReleasedWait? || s.pcs[t].WaitDown? || s.pcs[t].WaitWoken?)
  }

  /** cond_signal's sema_up reaches its thread wherever that is in cond_wait:
      between lock_release and sema_down as well as blocked. */
  lemma SignalReaches(s: State, t: nat)
    requires Inv(s) && Enabled(s, SignalUp(t))
    ensures Sane(s) && Signalled(Next(s, SignalUp(t)), s.pcs[t].w)
  {
    hide Count, Distinct;
    InvSane(s);
    SignalUpCond(s, t);
    assert BeingSignalled(s, s.pcs[t].w) && ThreadOk(s, s.pcs[t].w);
  }

  lemma SignalKept(s: State, step: Step, w: nat)
    requires Inv(s) && Enabled(s, step) && Signalled(s, w) && step != OwnDown(w)
    ensures Sane(s) && Signalled(Next(s, step), w)
  {
    hide Count, Distinct;
    InvSane(s);
    assert ThreadOk(s, w);
    match step
    case Down(t) =>
    case TryDown(t) =>
    case StoreHolder(t) =>
    case ClearHolder(t) =>
    case Up(t) => if s.waiters != [] { assert s.waiters[0] in s.waiters; }
    case Wait(t, c) =>
    case OwnDown(t) =>
    case Signal(t, c) =>
    case SignalUp(t) => assert BeingSignalled(s, s.pcs[t].w);
  }

  /** A signal is not lost: whatever happens after it, the thread does not block
      on its semaphore, and its next pass of sema_down gets it through. */
  lemma {:induction false} SignalNotLost(s: State, steps: seq<Step>, t: State, w: nat)
    requires Inv(s) && Leads(s, steps, t) && Signalled(s, w) && OwnDown(w) !in steps
    ensures Signalled(t, w) && Inv(t)
    ensures Enabled(t, OwnDown(w)) ==> Sane(t) && Next(t, OwnDown(w)).pcs[w] == Reacquire
    decreases |steps|
  {
    hide Inv;
    LeadsInv(s, steps, t);
    if steps != [] {
      assert steps[0] in steps;
      StepInv(s, steps[0]);
      SignalKept(s, steps[0], w);
      SignalNotLost(Next(s, steps[0]), steps[1..], t, w);
    } else if Enabled(t, OwnDown(w)) {
      StepInv(t, OwnDown(w));
    }
  }

  /** A thread blocked in cond_wait is on its condition's list, where a signal
      will find it, or the holder is about to wake it. */
  lemma NoWaiterForgotten(threads: nat, conds: nat, steps: seq<Step>, s: State, t: nat)
    requires Leads(Start(threads, conds), steps, s)
    requires t < |s.pcs| && s.pcs[t].WaitBlocked?
    ensures OnList(s, t) || BeingSignalled(s, t)
  {
    hide LockInv;
    LeadsInv(Start(threads, conds), steps, s);
    assert ThreadOk(s, t);
  }

  /** cond_signal takes the thread that has waited longest off the list, and its
      semaphore is up next. */
  lemma SignalTakesFirst(s: State, t: nat, c: nat)
    requires Inv(s) && Enabled(s, Signal(t, c)) && s.conds[c] != []
    ensures Sane(s) && Inv(Next(s, Signal(t, c))) && Sane(Next(s, Signal(t, c)))
    ensures var s1 := Next(s, Signal(t, c));
            && s1.conds == s.conds[c := s.conds[c][1..]]
            && Enabled(s1, SignalUp(t)) && Signalled(Next(s1, SignalUp(t)), s.conds[c][0])
  {
    hide LockInv, CondInv, Sane, Signalled;
    StepInv(s, Signal(t, c));
    var s1 := Next(s, Signal(t, c));
    SignalReaches(s1, t);
  }

  /** How many of the steps are signals on C. */
  ghost function SignalsOn(steps: seq<Step>, c: nat): nat {
    if steps == [] then 0
    else (if steps[0].Signal? && steps[0].c == c then 1 else 0) + SignalsOn(steps[1..], c)
  }

  /** One step leaves a waiter on the list, a place further up if it is a signal. */
  lemma PlaceKept(s: State, step: Step, c: nat, k: nat)
    requires Inv(s) && Enabled(s, step) && c < |s.conds| && k < |s.conds[c]|
    requires step.Signal? && step.c == c ==> k > 0
    ensures Sane(s) && c < |Next(s, step).conds|
    ensures var k' := if step.Signal? && step.c == c then k - 1 else k;
            k' < |Next(s, step).conds[c]| && Next(s, step).conds[c][k'] == s.conds[c][k]
  {
    hide LockInv, CondInv, ThreadOk, ListOk;
    InvSane(s);
  }

  lemma {:induction false} KthOnList(s: State, steps: seq<Step>, u: State, c: nat, k: nat)
    requires Inv(s) && Leads(s, steps, u) && c < |s.conds| && k < |s.conds[c]| && SignalsOn(steps, c) <= k
    ensures Inv(u) && c < |u.conds| && k - SignalsOn(steps, c) < |u.conds[c]|
    ensures u.conds[c][k - SignalsOn(steps, c)] == s.conds[c][k]
    decreases |steps|
  {
    hide Inv;
    if steps != [] {
      StepInv(s, steps[0]);
      PlaceKept(s, steps[0], c, k);
      KthOnList(Next(s, steps[0]), steps[1..], u, c, if steps[0].Signal? && steps[0].c == c then k - 1 else k);
    }
  }

  /** First come, first served: a waiter with K others before it is signalled by the
      (K+1)th signal on its condition, whatever else happens. */
  lemma KthSignalled(s: State, steps: seq<Step>, u: State, c: nat, k: nat, t: nat)
    requires Inv(s) && Leads(s, steps, u) && c < |s.conds| && k < |s.conds[c]| && SignalsOn(steps, c) == k
    requires Enabled(u, Signal(t, c))
    ensures Inv(u) && Sane(u) && Sane(Next(u, Signal(t, c))) && Enabled(Next(u, Signal(t, c)), SignalUp(t))
    ensures Signalled(Next(Next(u, Signal(t, c)), SignalUp(t)), s.conds[c][k])
  {
    hide Inv, Sane, Signalled;
    KthOnList(s, steps, u, c, k);
    SignalTakesFirst(u, t, c);
  }

  /** A thread that calls cond_wait with N others waiting is signalled by the (N+1)th
      signal from then on. */
  lemma WaiterIsSignalled(s: State, w: nat, c: nat, steps: seq<Step>, u: State, t: nat)
    requires Inv(s) && Enabled(s, Wait(w, c)) && Sane(s) && Inv(Next(s, Wait(w, c)))
    requires Leads(Next(s, Wait(w, c)), steps, u) && SignalsOn(steps, c) == |s.conds[c]| && Enabled(u, Signal(t, c))
    ensures Inv(u) && Sane(u) && Sane(Next(u, Signal(t, c))) && Enabled(Next(u, Signal(t, c)), SignalUp(t))
    ensures Signalled(Next(Next(u, Signal(t, c)), SignalUp(t)), w)
  {
    hide Inv, Sane, Signalled, Leads;
    var s1 := Next(s, Wait(w, c));
    assert s1.conds[c][|s.conds[c]|] == w;
    KthSignalled(s1, steps, u, c, |s.conds[c]|, t);
  }

  // ----- What one thread achieves -----

  /** The steps one after the other, if all of them can be taken. */
  ghost function Do(s: State, steps: seq<Step>): Option<State>
    requires Inv(s)
    decreases |steps|
  {
    if steps == [] then Some(s)
    else if !Enabled(s, steps[0]) then None
    else
      StepInv(s, steps[0]);
      Do(Next(s, steps[0]), steps[1..])
  }

  lemma DoOne(s: State, step: Step, rest: seq<Step>)
    requires Inv(s) && Enabled(s, step)
    ensures Sane(s) && Inv(Next(s, step)) && Do(s, [step] + rest) == Do(Next(s, step), rest)
  {
    hide LockInv, CondInv, Sane;
    StepInv(s, step);
    assert ([step] + rest)[1..] == rest;
  }

  /** lock_acquire takes a lock that is free. */
  lemma Acquires(s: State, t: nat)
    requires Inv(s) && s.value > 0 && Enabled(s, Down(t))
    ensures var r := Do(s, [Down(t), StoreHolder(t)]);
            r.Some? && t < |r.value.pcs| && r.value.pcs[t] == Holds && r.value.holder == Some(t) && r.value.value == 0
  {
    hide CondInv, Sane, QueueOk, HolderOk, Count;
    DoOne(s, Down(t), [StoreHolder(t)]);
    var s1 := Next(s, Down(t));
    DoOne(s1, StoreHolder(t), []);
    assert s.value <= 1;
    assert [Down(t)] + [StoreHolder(t)] == [Down(t), StoreHolder(t)] && [StoreHolder(t)] + [] == [StoreHolder(t)];
  }

  /** So does lock_try_acquire, and it fails without a trace otherwise. */
  lemma TryAcquires(s: State, t: nat)
    requires Inv(s) && Enabled(s, TryDown(t))
    ensures s.value > 0 ==>
              var r := Do(s, [TryDown(t), StoreHolder(t)]);
              r.Some? && t < |r.value.pcs| && r.value.pcs[t] == Holds && r.value.holder == Some(t) && r.value.value == 0
    ensures s.value == 0 ==> Do(s, [TryDown(t)]) == Some(s)
  {
    hide CondInv, Sane, QueueOk, HolderOk, Count;
    assert [TryDown(t)] + [StoreHolder(t)] == [TryDown(t), StoreHolder(t)] && [StoreHolder(t)] + [] == [StoreHolder(t)];
    assert [TryDown(t)] + [] == [TryDown(t)];
    if s.value > 0 {
      DoOne(s, TryDown(t), [StoreHolder(t)]);
      DoOne(Next(s, TryDown(t)), StoreHolder(t), []);
      assert s.value <= 1;
    } else {
      DoOne(s, TryDown(t), []);
    }
  }

  /** A thread that finds the lock taken blocks, behind those that wait already, and
      is let through only after an up. */
  lemma Contends(s: State, t: nat)
    requires Inv(s) && s.value == 0 && Enabled(s, Down(t))
    ensures var r := Do(s, [Down(t)]);
            r.Some? && t < |r.value.pcs| && r.value.pcs[t] == Blocked && r.value.waiters == s.waiters + [t]
            && !Enabled(r.value, Down(t)) && r.value.holder == s.holder
  {
    hide CondInv, Sane, LockInv;
    assert [Down(t)] + [] == [Down(t)];
    DoOne(s, Down(t), []);
  }

  /** lock_release gives it up, and wakes the thread that has waited longest, which
      gets it if it tries next. */
  lemma Releases(s: State, t: nat)
    requires Inv(s) && t < |s.pcs| && s.pcs[t].Holds?
    ensures var r := Do(s, [ClearHolder(t), Up(t)]);
            && r.Some? && Inv(r.value) && t < |r.value.pcs| && r.value.pcs[t] == Out
            && r.value.holder == None && r.value.value == 1
            && (s.waiters != [] ==>
                  var w := s.waiters[0];
                  && Enabled(r.value, Down(w)) && r.value.waiters == s.waiters[1..]
                  && var q := Do(r.value, [Down(w), StoreHolder(w)]);
                     q.Some? && w < |q.value.pcs| && q.value.pcs[w] == Holds)
  {
    hide CondInv, Sane, HolderOk, Distinct;
    DoOne(s, ClearHolder(t), [Up(t)]);
    var s1 := Next(s, ClearHolder(t));
    if s.waiters != [] { assert s.waiters[0] in s.waiters; }
    DoOne(s1, Up(t), []);
    var s2 := Next(s1, Up(t));
    assert [ClearHolder(t)] + [Up(t)] == [ClearHolder(t), Up(t)] && [Up(t)] + [] == [Up(t)];
    OwnerMeansTaken(s, t);
    if s.waiters != [] { Acquires(s2, s.waiters[0]); }
  }

  lemma OwnerMeansTaken(s: State, t: nat)
    requires LockInv(s) && t < |s.pcs| && Owns(s.pcs[t])
    ensures s.value == 0
  {
    CountSome(s.pcs, Owns);
  }

  /** cond_wait without interference: the thread is last on the list, the lock is
      free, and the thread is blocked. */
  lemma WaitGivesUpTheLock(s: State, t: nat, c: nat)
    requires Inv(s) && t < |s.pcs| && s.pcs[t].Holds? && c < |s.conds|
    ensures var r := Do(s, [Wait(t, c), ClearHolder(t), Up(t), OwnDown(t)]);
            && r.Some? && t < |r.value.pcs| && r.value.pcs[t] == WaitBlocked(c)
            && r.value.conds == s.conds[c := s.conds[c] + [t]]
            && r.value.holder == None && r.value.value == 1
  {
    hide LockInv, CondInv;
    InvSane(s);
    var steps := [Wait(t, c), ClearHolder(t), Up(t), OwnDown(t)];
    assert steps == [Wait(t, c)] + [ClearHolder(t), Up(t), OwnDown(t)];
    DoOne(s, Wait(t, c), [ClearHolder(t), Up(t), OwnDown(t)]);
    var s1 := Next(s, Wait(t, c));
    assert [ClearHolder(t), Up(t), OwnDown(t)] == [ClearHolder(t)] + [Up(t), OwnDown(t)];
    DoOne(s1, ClearHolder(t), [Up(t), OwnDown(t)]);
    var s2 := Next(s1, ClearHolder(t));
    assert [Up(t), OwnDown(t)] == [Up(t)] + [OwnDown(t)];
    DoOne(s2, Up(t), [OwnDown(t)]);
    var s3 := Next(s2, Up(t));
    OwnerMeansTaken(s, t);
    if s2.waiters != [] { FrontWaits(s2); }
    assert s3.pcs[t] == WaitDown(c) && s3.own[t] == 0;
    assert [OwnDown(t)] == [OwnDown(t)] + [];
    DoOne(s3, OwnDown(t), []);
    assert Next(s3, OwnDown(t)).pcs[t] == WaitBlocked(c);
  }

  lemma FrontWaits(s: State)
    requires LockInv(s) && s.waiters != []
    ensures s.waiters[0] < |s.pcs| && s.pcs[s.waiters[0]].Blocked?
  {
    assert s.waiters[0] in s.waiters;
  }

  /** A thread that has been signalled comes back out of cond_wait with the lock, if
      that is free. */
  lemma ComesBackWithTheLock(s: State, t: nat)
    requires Inv(s) && Signalled(s, t) && Enabled(s, OwnDown(t)) && s.value > 0
    ensures var r := Do(s, [OwnDown(t), Down(t), StoreHolder(t)]);
            r.Some? && t < |r.value.pcs| && r.value.pcs[t] == Holds && r.value.holder == Some(t)
  {
    hide LockInv, CondInv, Sane;
    assert [OwnDown(t), Down(t), StoreHolder(t)] == [OwnDown(t)] + [Down(t), StoreHolder(t)];
    DoOne(s, OwnDown(t), [Down(t), StoreHolder(t)]);
    Acquires(Next(s, OwnDown(t)), t);
  }
}
