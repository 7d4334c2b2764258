/** kernel/sleeplock.c over sleep and wakeup of kernel/proc.c, as a machine whose steps are the
    lock-level actions of any number of processes, interleaved in any way. One sleep lock `lk` and its
    spinlock `lk->lk`; every process has its own p->lock. */
module SleepLock {
  /** Who holds a spinlock. */
  datatype Holder = Free | By(p: nat)

  /** Where a process is. */
  datatype Pc =
    | Idle       // neither holding lk nor after it
    | Want       // acquiresleep, or sleep returning: about to acquire lk->lk
    | Check      // about to test lk->locked
    | Sleep1     // sleep: about to acquire p->lock
    | Sleep2     // about to release lk->lk
    | Sleep3     // about to set the state to SLEEPING
    | Sleep4     // about to give up the CPU; the scheduler releases p->lock
    | Asleep     // not running: SLEEPING, or RUNNABLE once woken
    | Sleep5     // scheduled again, still holding p->lock
    | Got        // lk taken, about to release lk->lk
    | Own        // holding lk
    | Rel1       // releasesleep: about to acquire lk->lk
    | Rel2       // about to clear lk->locked
    | Wake(i: nat)    // wakeup: about to look at process i
    | WakeIn(i: nat)  // holding the lock of process i
    | RelEnd     // about to release lk->lk

  datatype State = State(pc: seq<Pc>, sleeping: seq<bool>, plock: seq<Holder>, spin: Holder, locked: bool, pid: nat)

  ghost predicate Shaped(s: State) {
    |s.pc| == |s.sleeping| == |s.plock|
  }

  /** One step of process p. */
  ghost predicate Step(s: State, p: nat, t: State)
    requires Shaped(s) && p < |s.pc|
  {
    match s.pc[p]
    case Idle => t == s.(pc := s.pc[p := Want])
    case Want => s.spin.Free? && t == s.(pc := s.pc[p := Check], spin := By(p))
    case Check =>
      if s.locked then t == s.(pc := s.pc[p := Sleep1])
      else t == s.(pc := s.pc[p := Got], locked := true, pid := p)
    case Sleep1 => s.plock[p].Free? && t == s.(pc := s.pc[p := Sleep2], plock := s.plock[p := By(p)])
    case Sleep2 => t == s.(pc := s.pc[p := Sleep3], spin := Free)
    case Sleep3 => t == s.(pc := s.pc[p := Sleep4], sleeping := s.sleeping[p := true])
    case Sleep4 => t == s.(pc := s.pc[p := Asleep], plock := s.plock[p := Free])
    case Asleep => !s.sleeping[p] && s.plock[p].Free? && t == s.(pc := s.pc[p := Sleep5], plock := s.plock[p := By(p)])
    case Sleep5 => t == s.(pc := s.pc[p := Want], plock := s.plock[p := Free])
    case Got => t == s.(pc := s.pc[p := Own], spin := Free)
    case Own => t == s.(pc := s.pc[p := Rel1])
    case Rel1 => s.spin.Free? && t == s.(pc := s.pc[p := Rel2], spin := By(p))
    case Rel2 => t == s.(pc := s.pc[p := Wake(0)], locked := false, pid := 0)
    case Wake(i) =>
      if i >= |s.pc| then t == s.(pc := s.pc[p := RelEnd])
      else if i == p then t == s.(pc := s.pc[p := Wake(i + 1)])
      else s.plock[i].Free? && t == s.(pc := s.pc[p := WakeIn(i)], plock := s.plock[i := By(p)])
    case WakeIn(i) =>
      && i < |s.pc|
      && t == s.(pc := s.pc[p := Wake(i + 1)], sleeping := s.sleeping[i := false], plock := s.plock[i := Free])
    case RelEnd => t == s.(pc := s.pc[p := Idle], spin := Free)
  }

  /** Somebody else's kill wakes q whatever it sleeps on. */
  ghost predicate Kill(s: State, q: nat, t: State)
    requires Shaped(s) && q < |s.pc|
  {
    s.plock[q].Free? && t == s.(sleeping := s.sleeping[q := false])
  }

  ghost predicate Next(s: State, t: State)
    requires Shaped(s)
  {
    exists p: nat :: p < |s.pc| && (Step(s, p, t) || Kill(s, p, t))
  }

  ghost predicate Init(s: State) {
    && Shaped(s) && s.spin.Free? && !s.locked
    && forall p :: 0 <= p < |s.pc| ==> s.pc[p] == Idle && !s.sleeping[p] && s.plock[p].Free?
  }

  // The invariant.

  predicate HoldsSpin(c: Pc) {
    c.Check? || c.Sleep1? || c.Sleep2? || c.Got? || c.Rel2? || c.Wake? || c.WakeIn? || c.RelEnd?
  }

  predicate HoldsOwn(c: Pc) {
    c.Sleep2? || c.Sleep3? || c.Sleep4? || c.Sleep5?
  }

  predicate HasLock(c: Pc) {
    c.Got? || c.Own? || c.Rel1? || c.Rel2?
  }

  /** The spinlock is held by the one process that is where it should hold it. */
  ghost predicate SpinAt(s: State, p: nat)
    requires Shaped(s) && p < |s.pc|
  {
    HoldsSpin(s.pc[p]) <==> s.spin == By(p)
  }

  /** p->lock is held by p in sleep ... */
  ghost predicate OwnLockAt(s: State, p: nat)
    requires Shaped(s) && p < |s.pc|
  {
    HoldsOwn(s.pc[p]) <==> s.plock[p] == By(p)
  }

  /** ... or by a process that is waking p ... */
  ghost predicate WokenAt(s: State, p: nat)
    requires Shaped(s) && p < |s.pc|
  {
    s.plock[p].By? && s.plock[p].p != p ==> s.plock[p].p < |s.pc| && s.pc[s.plock[p].p] == WakeIn(p)
  }

  /** ... which then does hold it. */
  ghost predicate WakerAt(s: State, p: nat)
    requires Shaped(s) && p < |s.pc|
  {
    s.pc[p].WakeIn? ==> s.pc[p].i < |s.pc| && s.pc[p].i != p && s.plock[s.pc[p].i] == By(p)
  }

  ghost predicate LockAt(s: State, p: nat)
    requires Shaped(s) && p < |s.pc|
  {
    OwnLockAt(s, p) && WokenAt(s, p) && WakerAt(s, p)
  }

  /** The sleep lock is had by the process whose pid it records. */
  ghost predicate HasAt(s: State, p: nat)
    requires Shaped(s) && p < |s.pc|
  {
    HasLock(s.pc[p]) <==> s.locked && s.pid == p
  }

  ghost predicate PhaseAt(s: State, p: nat)
    requires Shaped(s) && p < |s.pc|
  {
    && (s.pc[p].Sleep1? || s.pc[p].Sleep2? ==> s.locked)
    && (s.pc[p].Wake? || s.pc[p].WakeIn? || s.pc[p].RelEnd? ==> !s.locked)
  }

  ghost predicate DozingAt(s: State, p: nat)
    requires Shaped(s) && p < |s.pc|
  {
    s.sleeping[p] ==> s.pc[p].Sleep4? || s.pc[p].Asleep?
  }

  ghost predicate OwnerAt(s: State, p: nat)
    requires Shaped(s) && p < |s.pc|
  {
    HasAt(s, p) && PhaseAt(s, p) && DozingAt(s, p)
  }

  /** p sleeps or is past the point of no return. */
  predicate Committed(s: State, p: nat)
    requires Shaped(s) && p < |s.pc|
  {
    s.pc[p].Sleep3? || s.sleeping[p]
  }

  /** A wakeup is under way that has yet to come to p. */
  ghost predicate Pending(s: State, p: nat)
    requires Shaped(s)
  {
    && s.spin.By? && s.spin.p < |s.pc|
    && match s.pc[s.spin.p] { case Wake(i) => i <= p case WakeIn(i) => i <= p case _ => false }
  }

  ghost predicate SleepAt(s: State, p: nat)
    requires Shaped(s) && p < |s.pc|
  {
    Committed(s, p) ==> s.locked || Pending(s, p)
  }

  ghost predicate Inv(s: State) {
    && Shaped(s)
    && (forall p: nat :: p < |s.pc| ==> SpinAt(s, p))
    && (forall p: nat :: p < |s.pc| ==> LockAt(s, p))
    && (forall p: nat :: p < |s.pc| ==> OwnerAt(s, p))
    && (forall p: nat :: p < |s.pc| ==> SleepAt(s, p))
    && (s.spin.By? ==> s.spin.p < |s.pc|) && (s.locked ==> s.pid < |s.pc|)
  }

  /** What a step does to the spinlock. */
  ghost predicate SpinEffect(s: State, p: nat, t: State)
    requires Shaped(s) && p < |s.pc|
  {
    && Shaped(t) && |t.pc| == |s.pc| && t.pc == s.pc[p := t.pc[p]]
    && if HoldsSpin(s.pc[p]) == HoldsSpin(t.pc[p]) then t.spin == s.spin
       else if HoldsSpin(s.pc[p]) then t.spin == Free
       else s.spin.Free? && t.spin == By(p)
  }

  /** What a step does to the process locks. */
  ghost predicate LockEffect(s: State, p: nat, t: State)
    requires Shaped(s) && p < |s.pc|
  {
    && Shaped(t) && |t.pc| == |s.pc| && t.pc == s.pc[p := t.pc[p]]
    && if s.pc[p].Wake? && t.pc[p].WakeIn? then
         var i := t.pc[p].i;
         i < |s.pc| && i != p && s.plock[i].Free? && t.plock == s.plock[i := By(p)] && !HoldsOwn(t.pc[p])
       else if s.pc[p].WakeIn? then
         s.pc[p].i < |s.pc| && t.plock == s.plock[s.pc[p].i := Free] && !HoldsOwn(t.pc[p]) && !t.pc[p].WakeIn?
       else if HoldsOwn(s.pc[p]) == HoldsOwn(t.pc[p]) then t.plock == s.plock && !t.pc[p].WakeIn?
       else if HoldsOwn(s.pc[p]) then t.plock == s.plock[p := Free] && !t.pc[p].WakeIn?
       else s.plock[p].Free? && t.plock == s.plock[p := By(p)] && !t.pc[p].WakeIn?
  }

  lemma StepSpinEffect(s: State, p: nat, t: State)
    requires Shaped(s) && p < |s.pc| && Step(s, p, t)
    ensures SpinEffect(s, p, t)
  {
  }

  lemma StepLockEffect(s: State, p: nat, t: State)
    requires Shaped(s) && p < |s.pc| && Step(s, p, t)
    ensures LockEffect(s, p, t)
  {
  }

  lemma StepSpin(s: State, p: nat, t: State, q: nat)
    requires Inv(s) && p < |s.pc| && SpinEffect(s, p, t) && q < |s.pc|
    ensures SpinAt(t, q) && (t.spin.By? ==> t.spin.p < |t.pc|)
  {
    hide LockAt, OwnerAt, SleepAt, HoldsSpin;
    assert SpinAt(s, p) && SpinAt(s, q);
  }

  lemma StepLock(s: State, p: nat, t: State, q: nat)
    requires Inv(s) && p < |s.pc| && LockEffect(s, p, t) && q < |s.pc|
    ensures LockAt(t, q)
  {
    hide SpinAt, OwnerAt, SleepAt;
    assert LockAt(s, p) && LockAt(s, q);
  }

  /** What a step does to the sleep lock. */
  ghost predicate OwnerEffect(s: State, p: nat, t: State)
    requires Shaped(s) && p < |s.pc|
  {
    && Shaped(t) && |t.pc| == |s.pc| && t.pc == s.pc[p := t.pc[p]]
    && if HasLock(s.pc[p]) == HasLock(t.pc[p]) then t.locked == s.locked && t.pid == s.pid
       else if HasLock(s.pc[p]) then !t.locked && HoldsSpin(s.pc[p])
       else !s.locked && t.locked && t.pid == p && HoldsSpin(s.pc[p])
  }

  lemma StepOwnerEffect(s: State, p: nat, t: State)
    requires Shaped(s) && p < |s.pc| && Step(s, p, t)
    ensures OwnerEffect(s, p, t)
  {
  }

  lemma StepHas(s: State, p: nat, t: State, q: nat)
    requires Inv(s) && p < |s.pc| && OwnerEffect(s, p, t) && q < |s.pc|
    ensures HasAt(t, q) && (t.locked ==> t.pid < |t.pc|)
  {
    hide LockAt, SleepAt, SpinAt, PhaseAt, HasLock, HoldsSpin;
    assert OwnerAt(s, p) && OwnerAt(s, q);
  }

  lemma StepPhase(s: State, p: nat, t: State, q: nat)
    requires Inv(s) && p < |s.pc| && Step(s, p, t) && q < |s.pc|
    ensures Shaped(t) && |t.pc| == |s.pc| && PhaseAt(t, q)
  {
    hide LockAt, SleepAt, DozingAt, HasAt;
    assert SpinAt(s, p) && SpinAt(s, q) && OwnerAt(s, p) && OwnerAt(s, q);
  }

  /** What a step does to the processes' states. */
  ghost predicate DozeEffect(s: State, p: nat, t: State)
    requires Shaped(s) && p < |s.pc|
  {
    && Shaped(t) && |t.pc| == |s.pc| && t.pc == s.pc[p := t.pc[p]]
    && if s.pc[p].Sleep3? then t.sleeping == s.sleeping[p := true] && t.pc[p].Sleep4?
       else if s.pc[p].WakeIn? then s.pc[p].i < |s.pc| && t.sleeping == s.sleeping[s.pc[p].i := false]
       else t.sleeping == s.sleeping && (s.pc[p].Sleep4? ==> t.pc[p].Asleep?) && (s.pc[p].Asleep? ==> !s.sleeping[p])
  }

  lemma StepDozeEffect(s: State, p: nat, t: State)
    requires Shaped(s) && p < |s.pc| && Step(s, p, t)
    ensures DozeEffect(s, p, t)
  {
  }

  lemma StepDozing(s: State, p: nat, t: State, q: nat)
    requires Inv(s) && p < |s.pc| && DozeEffect(s, p, t) && q < |s.pc|
    ensures DozingAt(t, q)
  {
    hide LockAt, SleepAt, SpinAt, HasAt, PhaseAt;
    assert OwnerAt(s, p) && OwnerAt(s, q);
  }

  lemma StepOwner(s: State, p: nat, t: State, q: nat)
    requires Inv(s) && p < |s.pc| && Step(s, p, t) && q < |s.pc|
    ensures Shaped(t) && |t.pc| == |s.pc| && OwnerAt(t, q) && (t.locked ==> t.pid < |t.pc|)
  {
    hide Step, OwnerEffect, DozeEffect, PhaseAt, HasAt, SpinAt, LockAt, SleepAt, DozingAt;
    StepPhase(s, p, t, q);
    StepDozeEffect(s, p, t);
    StepDozing(s, p, t, q);
    StepOwnerEffect(s, p, t);
    StepHas(s, p, t, q);
  }

  lemma StepSleep(s: State, p: nat, t: State, q: nat)
    requires Inv(s) && p < |s.pc| && Step(s, p, t) && q < |s.pc|
    ensures Shaped(t) && |t.pc| == |s.pc| && SleepAt(t, q)
  {
    assert SpinAt(s, p) && OwnerAt(s, p) && LockAt(s, p);
    assert SpinAt(s, q) && OwnerAt(s, q) && SleepAt(s, q) && LockAt(s, q);
  }

  lemma StepInv(s: State, p: nat, t: State)
    requires Inv(s) && p < |s.pc| && Step(s, p, t)
    ensures Inv(t)
  {
    hide Step, SpinEffect, LockEffect, SpinAt, LockAt, OwnerAt, SleepAt;
    StepSpinEffect(s, p, t);
    StepLockEffect(s, p, t);
    StepSpin(s, p, t, p);
    StepOwner(s, p, t, p);
    forall q: nat | q < |t.pc|
      ensures SpinAt(t, q) && LockAt(t, q) && OwnerAt(t, q) && SleepAt(t, q)
    {
      StepSpin(s, p, t, q);
      StepLock(s, p, t, q);
      StepOwner(s, p, t, q);
      StepSleep(s, p, t, q);
    }
  }

  lemma KillInv(s: State, p: nat, t: State)
    requires Inv(s) && p < |s.pc| && Kill(s, p, t)
    ensures Inv(t)
  {
    forall q: nat | q < |t.pc|
      ensures SpinAt(t, q) && LockAt(t, q) && OwnerAt(t, q) && SleepAt(t, q)
    {
      assert SpinAt(s, q) && LockAt(s, q) && OwnerAt(s, q) && SleepAt(s, q);
    }
  }

  lemma InitInv(s: State)
    requires Init(s)
    ensures Inv(s)
  {
  }

  /** Every state of every run. */
  ghost predicate IsRun(run: seq<State>) {
    && 0 < |run| && Init(run[0])
    && forall k :: 0 <= k < |run| - 1 ==> Shaped(run[k]) && Next(run[k], run[k + 1])
  }

  lemma {:induction false} RunInv(run: seq<State>, k: nat)
    requires IsRun(run) && k < |run|
    ensures Inv(run[k])
  {
    hide Inv, Init, Step;
    if k == 0 {
      InitInv(run[0]);
    } else {
      RunInv(run, k - 1);
      var s, t := run[k - 1], run[k];
      assert Next(s, t);
      var p: nat :| p < |s.pc| && (Step(s, p, t) || Kill(s, p, t));
      if Step(s, p, t) {
        StepInv(s, p, t);
      } else {
        KillInv(s, p, t);
      }
    }
  }

  /** Mutual exclusion: two processes never both have the lock. */
  lemma MutualExclusion(run: seq<State>, k: nat, p: nat, q: nat)
    requires IsRun(run) && k < |run| && p < |run[k].pc| && q < |run[k].pc| && HasLock(run[k].pc[p])
    requires HasLock(run[k].pc[q])
    ensures p == q
  {
    RunInv(run, k);
    assert OwnerAt(run[k], p) && OwnerAt(run[k], q);
  }

  /** No lost wakeup: when the lock is free and its spinlock released, nobody sleeps on it. */
  lemma NoLostWakeup(run: seq<State>, k: nat, p: nat)
    requires IsRun(run) && k < |run| && p < |run[k].pc| && !run[k].locked && run[k].spin.Free?
    ensures Shaped(run[k]) && !run[k].sleeping[p]
  {
    RunInv(run, k);
    assert SleepAt(run[k], p);
  }

  /** p need not wait for anything. */
  ghost predicate Ready(s: State, p: nat)
    requires Shaped(s) && p < |s.pc|
  {
    match s.pc[p]
    case Want => s.spin.Free?
    case Rel1 => s.spin.Free?
    case Sleep1 => s.plock[p].Free?
    case Asleep => !s.sleeping[p] && s.plock[p].Free?
    case Wake(i) => i < |s.pc| && i != p ==> s.plock[i].Free?
    case WakeIn(i) => i < |s.pc|
    case _ => true
  }

  lemma ReadySteps(s: State, p: nat)
    requires Shaped(s) && p < |s.pc| && Ready(s, p)
    ensures exists t :: Step(s, p, t)
  {
    var t := if s.pc[p].Idle? then s.(pc := s.pc[p := Want])
             else if s.pc[p].Want? then s.(pc := s.pc[p := Check], spin := By(p))
             else if s.pc[p].Check? then (if s.locked then s.(pc := s.pc[p := Sleep1])
                 else s.(pc := s.pc[p := Got], locked := true, pid := p))
             else if s.pc[p].Sleep1? then s.(pc := s.pc[p := Sleep2], plock := s.plock[p := By(p)])
             else if s.pc[p].Sleep2? then s.(pc := s.pc[p := Sleep3], spin := Free)
             else if s.pc[p].Sleep3? then s.(pc := s.pc[p := Sleep4], sleeping := s.sleeping[p := true])
             else if s.pc[p].Sleep4? then s.(pc := s.pc[p := Asleep], plock := s.plock[p := Free])
             else if s.pc[p].Asleep? then s.(pc := s.pc[p := Sleep5], plock := s.plock[p := By(p)])
             else if s.pc[p].Sleep5? then s.(pc := s.pc[p := Want], plock := s.plock[p := Free])
             else if s.pc[p].Got? then s.(pc := s.pc[p := Own], spin := Free)
             else if s.pc[p].Own? then s.(pc := s.pc[p := Rel1])
             else if s.pc[p].Rel1? then s.(pc := s.pc[p := Rel2], spin := By(p))
             else if s.pc[p].Rel2? then s.(pc := s.pc[p := Wake(0)], locked := false, pid := 0)
             else if s.pc[p].Wake? then
               (if s.pc[p].i >= |s.pc| then s.(pc := s.pc[p := RelEnd])
                else if s.pc[p].i == p then s.(pc := s.pc[p := Wake(p + 1)])
                else s.(pc := s.pc[p := WakeIn(s.pc[p].i)], plock := s.plock[s.pc[p].i := By(p)]))
             else if s.pc[p].WakeIn? then s.(pc := s.pc[p := Wake(s.pc[p].i + 1)],
                 sleeping := s.sleeping[s.pc[p].i := false], plock := s.plock[s.pc[p].i := Free])
             else s.(pc := s.pc[p := Idle], spin := Free);
    assert Step(s, p, t);
  }

  /** Only the holder of the spinlock has another process's lock. */
  lemma ForeignLock(s: State, q: nat)
    requires Inv(s) && q < |s.pc|
    ensures s.plock[q].By? && s.plock[q].p != q ==> s.spin == s.plock[q] && s.pc[s.plock[q].p] == WakeIn(q)
  {
    hide SleepAt, OwnerAt;
    assert LockAt(s, q);
    assert s.plock[q].By? && s.plock[q].p < |s.pc| ==> SpinAt(s, s.plock[q].p);
  }

  /** The holder of the spinlock, or whoever it waits for, can go on. */
  lemma HolderReady(s: State) returns (p: nat)
    requires Inv(s) && s.spin.By?
    ensures p < |s.pc| && !s.pc[p].Idle? && Ready(s, p)
  {
    p := s.spin.p;
    assert SpinAt(s, p) && LockAt(s, p);
    ForeignLock(s, p);
    if s.pc[p].Wake? && s.pc[p].i < |s.pc| && s.pc[p].i != p {
      var i := s.pc[p].i;
      assert LockAt(s, i) && SpinAt(s, i);
      if s.plock[i].By? {
        ForeignLock(s, i);
        p := i;
      }
    }
  }

  /** No deadlock: in every state of every run in which a process is doing something with the lock,
      such a process can take a step. Nobody waits for processes that have nothing to do with it. */
  lemma NoDeadlock(run: seq<State>, k: nat, q: nat) returns (p: nat)
    requires IsRun(run) && k < |run| && q < |run[k].pc| && !run[k].pc[q].Idle?
    ensures Shaped(run[k]) && p < |run[k].pc| && !run[k].pc[p].Idle? && exists t :: Step(run[k], p, t)
  {
    hide Step;
    RunInv(run, k);
    var s := run[k];
    if s.spin.By? {
      p := HolderReady(s);
    } else {
      p := q;
      assert LockAt(s, q) && SpinAt(s, q) && SleepAt(s, q) && OwnerAt(s, q);
      ForeignLock(s, q);
      if s.pc[q].Asleep? && s.sleeping[q] {
        p := s.pid;
        assert OwnerAt(s, p) && SpinAt(s, p);
      }
    }
    ReadySteps(s, p);
  }
}
