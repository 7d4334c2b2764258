/** wait, exit, reparent and fork's parent link of kernel/proc.c, as a machine whose steps are the
    lock-level actions of the processes, interleaved in any way. A parent waits on the channel that is
    its own slot, so a wakeup of channel q concerns process q only. */
module WaitExit {
  datatype Holder = Free | By(p: nat)

  /** Where a process is. */
  datatype Pc =
    | Unused | Run
    | Wait0                          // wait, or sleep returning: about to acquire wait_lock
    | Scan(i: nat, kids: bool)       // about to look at slot i
    | ScanIn(i: nat, kids: bool)     // holding the lock of child i
    | WaitRet                        // about to release wait_lock and return
    | Sleep1                         // sleep: about to acquire p->lock
    | Sleep2                         // about to release wait_lock
    | Sleep3                         // about to set the state to SLEEPING
    | Sleep4                         // about to give up the CPU
    | Asleep                         // SLEEPING, or RUNNABLE once woken
    | Sleep5                         // scheduled again, still holding p->lock
    | Exit0                          // exit: about to acquire wait_lock
    | Rep(i: nat)                    // reparent: about to look at slot i
    | RepWake(i: nat, j: nat)        // wakeup(initproc): about to look at process j
    | RepWakeIn(i: nat, j: nat)      // holding the lock of process j
    | ParWake(j: nat)                // wakeup(p->parent): about to look at process j
    | ParWakeIn(j: nat)
    | Exit3                          // about to acquire p->lock
    | Exit4                          // about to become a ZOMBIE
    | Exit5                          // about to release wait_lock
    | Exit6                          // about to give up the CPU for good
    | Dead

  /** parent[i] is |pc| for a process without parent. */
  datatype State = State(
    pc: seq<Pc>, parent: seq<nat>, zombie: seq<bool>, sleeping: seq<bool>, killed: seq<bool>, plock: seq<Holder>,
    wl: Holder, init: nat)

  ghost predicate Shaped(s: State) {
    |s.pc| == |s.parent| == |s.zombie| == |s.sleeping| == |s.killed| == |s.plock| && s.init < |s.pc|
  }

  /** One step of wait, sleep included. */
  ghost predicate WaitStep(s: State, p: nat, t: State)
    requires Shaped(s) && p < |s.pc|
  {
    match s.pc[p]
    case Wait0 => s.wl.Free? && t == s.(pc := s.pc[p := Scan(0, false)], wl := By(p))
    case Scan(i, kids) =>
      if i >= |s.pc| then
        (kids ==> s.plock[p].Free?) && t == s.(pc := s.pc[p := if kids && !s.killed[p] then Sleep1 else WaitRet])
      else if s.parent[i] == p then
        s.plock[i].Free? && t == s.(pc := s.pc[p := ScanIn(i, true)], plock := s.plock[i := By(p)])
      else t == s.(pc := s.pc[p := Scan(i + 1, kids)])
    case ScanIn(i, kids) =>
      i < |s.pc| && t == s.(pc := s.pc[p := if s.zombie[i] then WaitRet else Scan(i + 1, kids)],
          plock := s.plock[i := Free])
    case WaitRet => t == s.(pc := s.pc[p := Run], wl := Free)
    case Sleep1 => s.plock[p].Free? && t == s.(pc := s.pc[p := Sleep2], plock := s.plock[p := By(p)])
    case Sleep2 => t == s.(pc := s.pc[p := Sleep3], wl := Free)
    case Sleep3 => t == s.(pc := s.pc[p := Sleep4], sleeping := s.sleeping[p := true])
    case Sleep4 => t == s.(pc := s.pc[p := Asleep], plock := s.plock[p := Free])
    case Asleep => !s.sleeping[p] && s.plock[p].Free? && t == s.(pc := s.pc[p := Sleep5], plock := s.plock[p := By(p)])
    case Sleep5 => t == s.(pc := s.pc[p := Wait0], plock := s.plock[p := Free])
    case _ => false
  }

  /** One step of exit. */
  ghost predicate ExitStep(s: State, p: nat, t: State)
    requires Shaped(s) && p < |s.pc|
  {
    match s.pc[p]
    case Exit0 => s.wl.Free? && t == s.(pc := s.pc[p := Rep(0)], wl := By(p))
    case Rep(i) =>
      if i >= |s.pc| then t == s.(pc := s.pc[p := ParWake(0)])
      else if s.parent[i] == p then t == s.(pc := s.pc[p := RepWake(i, 0)], parent := s.parent[i := s.init])
      else t == s.(pc := s.pc[p := Rep(i + 1)])
    case RepWake(i, j) =>
      if j >= |s.pc| then t == s.(pc := s.pc[p := Rep(i + 1)])
      else if j == p then t == s.(pc := s.pc[p := RepWake(i, j + 1)])
      else s.plock[j].Free? && t == s.(pc := s.pc[p := RepWakeIn(i, j)], plock := s.plock[j := By(p)])
    case RepWakeIn(i, j) =>
      j < |s.pc| && t == s.(pc := s.pc[p := RepWake(i, j + 1)], sleeping := Woken(s.sleeping, j, s.init),
          plock := s.plock[j := Free])
    case ParWake(j) =>
      if j >= |s.pc| then t == s.(pc := s.pc[p := Exit3])
      else if j == p then t == s.(pc := s.pc[p := ParWake(j + 1)])
      else s.plock[j].Free? && t == s.(pc := s.pc[p := ParWakeIn(j)], plock := s.plock[j := By(p)])
    case ParWakeIn(j) =>
      j < |s.pc| && t == s.(pc := s.pc[p := ParWake(j + 1)], sleeping := Woken(s.sleeping, j, s.parent[p]),
          plock := s.plock[j := Free])
    case Exit3 => s.plock[p].Free? && t == s.(pc := s.pc[p := Exit4], plock := s.plock[p := By(p)])
    case Exit4 => t == s.(pc := s.pc[p := Exit5], zombie := s.zombie[p := true])
    case Exit5 => t == s.(pc := s.pc[p := Exit6], wl := Free)
    case Exit6 => t == s.(pc := s.pc[p := Dead], plock := s.plock[p := Free])
    case _ => false
  }

  /** One step of process p that changes nobody else's place. */
  ghost predicate Step(s: State, p: nat, t: State)
    requires Shaped(s) && p < |s.pc|
  {
    || WaitStep(s, p, t) || ExitStep(s, p, t)
    || (s.pc[p].Run? && (t == s.(pc := s.pc[p := Wait0]) || (p != s.init && t == s.(pc := s.pc[p := Exit0]))))
  }

  /** `p->state == SLEEPING && p->chan == chan`, where only process chan sleeps on chan. */
  function Woken(sleeping: seq<bool>, j: nat, chan: nat): (r: seq<bool>)
    requires j < |sleeping|
    ensures |r| == |sleeping|
  {
    if j == chan then sleeping[j := false] else sleeping
  }

  /** wait finds a ZOMBIE and frees it. */
  ghost predicate Reap(s: State, p: nat, i: nat, t: State)
    requires Shaped(s) && p < |s.pc| && i < |s.pc|
  {
    && s.pc[p].ScanIn? && s.pc[p].i == i && s.zombie[i]
    && t == s.(pc := s.pc[i := Unused][p := WaitRet], parent := s.parent[i := |s.pc|], zombie := s.zombie[i := false],
       killed := s.killed[i := false], plock := s.plock[i := Free])
  }

  /** fork: the parent link of a new process is set while holding wait_lock. */
  ghost predicate Fork(s: State, p: nat, c: nat, t: State)
    requires Shaped(s) && p < |s.pc| && c < |s.pc|
  {
    && s.pc[p].Run? && s.pc[c].Unused? && s.wl.Free?
    && t == s.(pc := s.pc[c := Run], parent := s.parent[c := p])
  }

  /** kill marks q, and wakes it whatever it sleeps on. */
  ghost predicate Kill(s: State, q: nat, t: State)
    requires Shaped(s) && q < |s.pc|
  {
    s.plock[q].Free? && t == s.(sleeping := s.sleeping[q := false], killed := s.killed[q := true])
  }

  ghost predicate Next(s: State, t: State)
    requires Shaped(s)
  {
    exists p: nat, q: nat {:trigger Move(s, p, q, t)} :: p < |s.pc| && q < |s.pc| && Move(s, p, q, t)
  }

  ghost predicate Move(s: State, p: nat, q: nat, t: State)
    requires Shaped(s) && p < |s.pc| && q < |s.pc|
  {
    Step(s, p, t) || Reap(s, p, q, t) || Fork(s, p, q, t) || Kill(s, p, t)
  }

  /** Only init runs. */
  ghost predicate Init(s: State) {
    && Shaped(s) && s.wl.Free?
    && forall p :: 0 <= p < |s.pc| ==>
         && s.pc[p] == (if p == s.init then Run else Unused) && s.parent[p] == |s.pc|
         && !s.zombie[p] && !s.sleeping[p] && !s.killed[p] && s.plock[p].Free?
  }

  // The invariant.

  predicate HoldsWl(c: Pc) {
    c.Scan? || c.ScanIn? || c.WaitRet? || c.Sleep1? || c.Sleep2? || c.Rep? || c.RepWake? || c.RepWakeIn? ||
        c.ParWake? || c.ParWakeIn? || c.Exit3? || c.Exit4? || c.Exit5?
  }

  predicate HoldsOwn(c: Pc) {
    c.Sleep2? || c.Sleep3? || c.Sleep4? || c.Sleep5? || c.Exit4? || c.Exit5? || c.Exit6?
  }

  predicate Exiting(c: Pc) {
    c.Exit0? || c.Rep? || c.RepWake? || c.RepWakeIn? || c.ParWake? || c.ParWakeIn? || c.Exit3? || c.Exit4? ||
        c.Exit5? || c.Exit6? || c.Dead?
  }

  /** c is where a process holds the lock of process i. */
  predicate Grips(c: Pc, i: nat) {
    (c.ScanIn? && c.i == i) || (c.RepWakeIn? && c.j == i) || (c.ParWakeIn? && c.j == i)
  }

  ghost predicate WlAt(s: State, p: nat)
    requires Shaped(s) && p < |s.pc|
  {
    HoldsWl(s.pc[p]) <==> s.wl == By(p)
  }

  ghost predicate LockAt(s: State, p: nat)
    requires Shaped(s) && p < |s.pc|
  {
    && (HoldsOwn(s.pc[p]) <==> s.plock[p] == By(p))
    && (s.plock[p].By? && s.plock[p].p != p ==> s.plock[p].p < |s.pc| && Grips(s.pc[s.plock[p].p], p))
  }

  ghost predicate GripAt(s: State, p: nat, i: nat)
    requires Shaped(s) && p < |s.pc|
  {
    Grips(s.pc[p], i) ==> i < |s.pc| && i != p && s.plock[i] == By(p)
  }

  ghost predicate LifeAt(s: State, p: nat)
    requires Shaped(s) && p < |s.pc|
  {
    && (s.zombie[p] <==> s.pc[p].Exit5? || s.pc[p].Exit6? || s.pc[p].Dead?)
    && (p == s.init ==> !Exiting(s.pc[p]) && !s.pc[p].Unused? && s.parent[p] == |s.pc|)
    && s.parent[p] != p
    && (s.sleeping[p] ==> s.pc[p].Sleep4? || s.pc[p].Asleep?)
  }

  predicate Committed(s: State, p: nat)
    requires Shaped(s) && p < |s.pc|
  {
    s.pc[p].Sleep3? || s.sleeping[p]
  }

  /** How far a scan has found no ZOMBIE child. */
  function Scanned(c: Pc, n: nat): nat {
    match c
    case Scan(i, _) => i
    case ScanIn(i, _) => i
    case Sleep1 => n
    case Sleep2 => n
    case _ => 0
  }

  ghost predicate ScanAt(s: State, p: nat, k: nat)
    requires Shaped(s) && p < |s.pc| && k < |s.pc|
  {
    k < Scanned(s.pc[p], |s.pc|) && s.parent[k] == p ==> !s.zombie[k]
  }

  /** How far a wakeup of the parent has come. */
  function Passed(c: Pc, n: nat): nat {
    match c
    case ParWake(j) => j
    case ParWakeIn(j) => j
    case Exit3 => n
    case Exit4 => n
    case _ => 0
  }

  ghost predicate ParentAt(s: State, p: nat)
    requires Shaped(s) && p < |s.pc|
  {
    s.parent[p] < |s.pc| && s.parent[p] < Passed(s.pc[p], |s.pc|) ==> !Committed(s, s.parent[p])
  }

  /** A wakeup of init is under way that has yet to come to it. */
  ghost predicate Pending(s: State)
    requires Shaped(s)
  {
    && s.wl.By? && s.wl.p < |s.pc|
    && match s.pc[s.wl.p] { case RepWake(_, j) => j <= s.init case RepWakeIn(_, j) => j <= s.init case _ => false }
  }

  /** A parent that sleeps has no ZOMBIE child, unless it is init and about to be woken. */
  ghost predicate SleepAt(s: State, q: nat, c: nat)
    requires Shaped(s) && q < |s.pc| && c < |s.pc|
  {
    Committed(s, q) && s.zombie[c] && s.parent[c] == q ==> q == s.init && Pending(s)
  }

  ghost predicate Inv(s: State) {
    && Shaped(s) && (s.wl.By? ==> s.wl.p < |s.pc|)
    && (forall p: nat :: p < |s.pc| ==> WlAt(s, p))
    && (forall p: nat :: p < |s.pc| ==> LockAt(s, p))
    && (forall p: nat, i: nat :: p < |s.pc| ==> GripAt(s, p, i))
    && (forall p: nat :: p < |s.pc| ==> LifeAt(s, p))
    && (forall p: nat, k: nat :: p < |s.pc| && k < |s.pc| ==> ScanAt(s, p, k))
    && (forall p: nat :: p < |s.pc| ==> ParentAt(s, p))
    && (forall q: nat, c: nat :: q < |s.pc| && c < |s.pc| ==> SleepAt(s, q, c))
  }

  // What one step changes, aspect by aspect.

  ghost predicate Same(s: State, p: nat, t: State)
    requires Shaped(s) && p < |s.pc|
  {
    Shaped(t) && |t.pc| == |s.pc| && t.init == s.init && t.pc == s.pc[p := t.pc[p]]
  }

  ghost predicate WlEffect(s: State, p: nat, t: State)
    requires Shaped(s) && p < |s.pc|
  {
    && Same(s, p, t)
    && if HoldsWl(s.pc[p]) == HoldsWl(t.pc[p]) then t.wl == s.wl
       else if HoldsWl(s.pc[p]) then t.wl == Free
       else s.wl.Free? && t.wl == By(p)
  }

  predicate HasGrip(c: Pc) {
    c.ScanIn? || c.RepWakeIn? || c.ParWakeIn?
  }

  function GripOf(c: Pc): nat
    requires HasGrip(c)
  {
    if c.ScanIn? then c.i else c.j
  }

  ghost predicate LockEffect(s: State, p: nat, t: State)
    requires Shaped(s) && p < |s.pc|
  {
    && Same(s, p, t)
    && if HasGrip(t.pc[p]) then
         var g := GripOf(t.pc[p]);
         && !HasGrip(s.pc[p]) && g < |s.pc| && (g == p ==> s.parent[p] == p) && s.plock[g].Free?
         && t.plock == s.plock[g := By(p)]
         && !HoldsOwn(s.pc[p]) && !HoldsOwn(t.pc[p])
       else if HasGrip(s.pc[p]) then
         && GripOf(s.pc[p]) < |s.pc| && t.plock == s.plock[GripOf(s.pc[p]) := Free]
         && !HoldsOwn(s.pc[p]) && !HoldsOwn(t.pc[p])
       else if HoldsOwn(s.pc[p]) == HoldsOwn(t.pc[p]) then t.plock == s.plock
       else if HoldsOwn(s.pc[p]) then t.plock == s.plock[p := Free]
       else s.plock[p].Free? && t.plock == s.plock[p := By(p)]
  }

  ghost predicate DozeEffect(s: State, p: nat, t: State)
    requires Shaped(s) && p < |s.pc|
  {
    && Same(s, p, t) && (t.pc[p].Sleep3? ==> s.pc[p].Sleep2?)
    && (s.pc[p].Sleep4? ==> t.pc[p].Asleep?) && (s.pc[p].Asleep? ==> !s.sleeping[p])
    && if s.pc[p].Sleep3? then t.sleeping == s.sleeping[p := true] && t.pc[p].Sleep4?
       else if s.pc[p].RepWakeIn? then s.pc[p].j < |s.pc| && t.sleeping == Woken(s.sleeping, s.pc[p].j, s.init)
       else if s.pc[p].ParWakeIn? then s.pc[p].j < |s.pc| && t.sleeping == Woken(s.sleeping, s.pc[p].j, s.parent[p])
       else t.sleeping == s.sleeping
  }

  ghost predicate FamilyEffect(s: State, p: nat, t: State)
    requires Shaped(s) && p < |s.pc|
  {
    && Same(s, p, t)
    && (if s.pc[p].Rep? && t.pc[p].RepWake? then
          && s.pc[p].i < |s.pc| && s.parent[s.pc[p].i] == p && t.parent == s.parent[s.pc[p].i := s.init]
          && t.pc[p] == RepWake(s.pc[p].i, 0)
        else t.parent == s.parent)
    && (if s.pc[p].Exit4? then t.zombie == s.zombie[p := true] && t.pc[p].Exit5?
        else t.zombie == s.zombie && (t.pc[p].Exit5? || t.pc[p].Exit6? || t.pc[p].Dead? <==>
            s.pc[p].Exit5? || s.pc[p].Exit6? || s.pc[p].Dead?))
    && !s.pc[p].Unused? && !t.pc[p].Unused? && (p == s.init && !Exiting(s.pc[p]) ==> !Exiting(t.pc[p]))
  }

  ghost predicate ScanEffect(s: State, p: nat, t: State)
    requires Shaped(s) && p < |s.pc|
  {
    && Same(s, p, t)
    && forall k: nat :: k < |s.pc| && k < Scanned(t.pc[p], |s.pc|) ==>
         && t.parent[k] == s.parent[k] && t.zombie[k] == s.zombie[k]
         && (k < Scanned(s.pc[p], |s.pc|) || s.parent[k] != p || !s.zombie[k])
  }

  ghost predicate PassEffect(s: State, p: nat, t: State)
    requires Shaped(s) && p < |s.pc|
  {
    && Same(s, p, t)
    && forall k: nat :: k < |s.pc| && k < Passed(t.pc[p], |s.pc|) ==>
         t.parent == s.parent && (k < Passed(s.pc[p], |s.pc|) || k == p || s.pc[p] == ParWakeIn(k))
  }

  lemma WaitWl(s: State, p: nat, t: State)
    requires Shaped(s) && p < |s.pc| && WaitStep(s, p, t)
    ensures WlEffect(s, p, t)
  {
  }

  lemma ExitWl(s: State, p: nat, t: State)
    requires Shaped(s) && p < |s.pc| && ExitStep(s, p, t)
    ensures WlEffect(s, p, t)
  {
  }

  lemma StepWl(s: State, p: nat, t: State)
    requires Shaped(s) && p < |s.pc| && Step(s, p, t)
    ensures WlEffect(s, p, t)
  {
    hide WaitStep, ExitStep;
    if WaitStep(s, p, t) {
      WaitWl(s, p, t);
    } else if ExitStep(s, p, t) {
      ExitWl(s, p, t);
    }
  }

  lemma WaitLock(s: State, p: nat, t: State)
    requires Shaped(s) && p < |s.pc| && WaitStep(s, p, t)
    ensures LockEffect(s, p, t)
  {
  }

  lemma ExitLock(s: State, p: nat, t: State)
    requires Shaped(s) && p < |s.pc| && ExitStep(s, p, t)
    ensures LockEffect(s, p, t)
  {
  }

  lemma StepLock(s: State, p: nat, t: State)
    requires Shaped(s) && p < |s.pc| && Step(s, p, t)
    ensures LockEffect(s, p, t)
  {
    hide WaitStep, ExitStep;
    if WaitStep(s, p, t) {
      WaitLock(s, p, t);
    } else if ExitStep(s, p, t) {
      ExitLock(s, p, t);
    }
  }

  lemma WaitDoze(s: State, p: nat, t: State)
    requires Shaped(s) && p < |s.pc| && WaitStep(s, p, t)
    ensures DozeEffect(s, p, t)
  {
  }

  lemma ExitDoze(s: State, p: nat, t: State)
    requires Shaped(s) && p < |s.pc| && ExitStep(s, p, t)
    ensures DozeEffect(s, p, t)
  {
  }

  lemma StepDoze(s: State, p: nat, t: State)
    requires Shaped(s) && p < |s.pc| && Step(s, p, t)
    ensures DozeEffect(s, p, t)
  {
    hide WaitStep, ExitStep;
    if WaitStep(s, p, t) {
      WaitDoze(s, p, t);
    } else if ExitStep(s, p, t) {
      ExitDoze(s, p, t);
    }
  }

  lemma WaitFamily(s: State, p: nat, t: State)
    requires Shaped(s) && p < |s.pc| && WaitStep(s, p, t)
    ensures FamilyEffect(s, p, t)
  {
    assert t.parent == s.parent && t.zombie == s.zombie && !s.pc[p].Rep? && !s.pc[p].Exit4?;
    assert !Exiting(t.pc[p]) && !t.pc[p].Unused?;
  }

  lemma ExitFamily(s: State, p: nat, t: State)
    requires Shaped(s) && p < |s.pc| && ExitStep(s, p, t)
    ensures FamilyEffect(s, p, t)
  {
  }

  lemma StepFamily(s: State, p: nat, t: State)
    requires Shaped(s) && p < |s.pc| && Step(s, p, t)
    ensures FamilyEffect(s, p, t)
  {
    hide WaitStep, ExitStep;
    if WaitStep(s, p, t) {
      WaitFamily(s, p, t);
    } else if ExitStep(s, p, t) {
      ExitFamily(s, p, t);
    }
  }

  lemma WaitScan(s: State, p: nat, t: State)
    requires Shaped(s) && p < |s.pc| && WaitStep(s, p, t)
    ensures ScanEffect(s, p, t)
  {
  }

  lemma ExitScan(s: State, p: nat, t: State)
    requires Shaped(s) && p < |s.pc| && ExitStep(s, p, t)
    ensures ScanEffect(s, p, t)
  {
  }

  lemma StepScan(s: State, p: nat, t: State)
    requires Shaped(s) && p < |s.pc| && Step(s, p, t)
    ensures ScanEffect(s, p, t)
  {
    hide WaitStep, ExitStep;
    if WaitStep(s, p, t) {
      WaitScan(s, p, t);
    } else if ExitStep(s, p, t) {
      ExitScan(s, p, t);
    }
  }

  lemma WaitPass(s: State, p: nat, t: State)
    requires Shaped(s) && p < |s.pc| && WaitStep(s, p, t)
    ensures PassEffect(s, p, t)
  {
  }

  lemma ExitPass(s: State, p: nat, t: State)
    requires Shaped(s) && p < |s.pc| && ExitStep(s, p, t)
    ensures PassEffect(s, p, t)
  {
    if s.pc[p].ParWakeIn? {
      assert t.pc[p] == ParWake(s.pc[p].j + 1);
    } else if s.pc[p].ParWake? {
      assert t.pc[p].Exit3? || t.pc[p] == ParWakeIn(s.pc[p].j) || (s.pc[p].j == p && t.pc[p] == ParWake(s.pc[p].j + 1));
    } else {
      assert Passed(t.pc[p], |s.pc|) <= Passed(s.pc[p], |s.pc|);
    }
  }

  lemma StepPass(s: State, p: nat, t: State)
    requires Shaped(s) && p < |s.pc| && Step(s, p, t)
    ensures PassEffect(s, p, t)
  {
    hide WaitStep, ExitStep;
    if WaitStep(s, p, t) {
      WaitPass(s, p, t);
    } else if ExitStep(s, p, t) {
      ExitPass(s, p, t);
    }
  }

  // Every part of the invariant is kept.

  lemma KeepsWl(s: State, p: nat, t: State, q: nat)
    requires Inv(s) && p < |s.pc| && q < |s.pc| && WlEffect(s, p, t)
    ensures WlAt(t, q) && (t.wl.By? ==> t.wl.p < |t.pc|)
  {
    hide LockAt, GripAt, LifeAt, ScanAt, ParentAt, SleepAt, HoldsWl;
    assert WlAt(s, p) && WlAt(s, q);
  }

  lemma GripsOne(c: Pc, i: nat)
    ensures Grips(c, i) <==> HasGrip(c) && GripOf(c) == i
  {
  }

  lemma KeepsLock(s: State, p: nat, t: State, q: nat)
    requires Inv(s) && p < |s.pc| && q < |s.pc| && LockEffect(s, p, t)
    ensures LockAt(t, q)
  {
    hide WlAt, ScanAt, ParentAt, SleepAt, Grips, HoldsOwn, HasGrip, GripOf;
    assert LockAt(s, p) && LockAt(s, q) && LifeAt(s, p);
    GripsOne(s.pc[p], q);
    GripsOne(t.pc[p], q);
    assert GripAt(s, p, q);
    if HasGrip(s.pc[p]) {
      GripsOne(s.pc[p], GripOf(s.pc[p]));
      assert GripAt(s, p, GripOf(s.pc[p]));
    }
  }

  lemma KeepsGrip(s: State, p: nat, t: State, q: nat, i: nat)
    requires Inv(s) && p < |s.pc| && q < |s.pc| && LockEffect(s, p, t)
    ensures GripAt(t, q, i)
  {
    hide WlAt, ScanAt, ParentAt, SleepAt, Grips, HoldsOwn, HasGrip, GripOf;
    assert LockAt(s, p) && LifeAt(s, p) && GripAt(s, q, i) && GripAt(s, p, i);
    GripsOne(s.pc[p], i);
    GripsOne(t.pc[p], i);
    if HasGrip(s.pc[p]) {
      GripsOne(s.pc[p], GripOf(s.pc[p]));
      assert GripAt(s, p, GripOf(s.pc[p]));
    }
  }

  lemma KeepsLife(s: State, p: nat, t: State, q: nat)
    requires Inv(s) && p < |s.pc| && q < |s.pc| && FamilyEffect(s, p, t) && DozeEffect(s, p, t)
    ensures LifeAt(t, q)
  {
    hide WlAt, LockAt, GripAt, ScanAt, ParentAt, SleepAt;
    assert LifeAt(s, p) && LifeAt(s, q);
    if s.pc[p].Rep? && s.pc[p].i < |s.pc| {
      assert LifeAt(s, s.pc[p].i);
    }
  }

  lemma Exclusive(s: State, p: nat, q: nat)
    requires Inv(s) && p < |s.pc| && q < |s.pc| && HoldsWl(s.pc[p]) && HoldsWl(s.pc[q])
    ensures p == q
  {
    assert WlAt(s, p) && WlAt(s, q);
  }

  lemma KeepsScan(s: State, p: nat, t: State, q: nat, k: nat)
    requires Inv(s) && p < |s.pc| && q < |s.pc| && k < |s.pc| && ScanEffect(s, p, t) && FamilyEffect(s, p, t)
    ensures ScanAt(t, q, k)
  {
    hide LockAt, GripAt, LifeAt, ParentAt, SleepAt, WlAt;
    assert ScanAt(s, q, k);
    if q != p && HoldsWl(s.pc[q]) && HoldsWl(s.pc[p]) {
      Exclusive(s, p, q);
      assert false;
    }
  }

  /** Nobody becomes committed but by sleeping. */
  lemma CommitsOnly(s: State, p: nat, t: State, q: nat)
    requires Inv(s) && p < |s.pc| && q < |s.pc| && DozeEffect(s, p, t) && Committed(t, q)
    ensures Committed(s, q) || (q == p && s.pc[p].Sleep2?)
  {
    hide WlAt, LockAt, GripAt, LifeAt, ScanAt, ParentAt, SleepAt;
  }

  /** Whoever holds the lock of q can clear q's sleep for certain. */
  lemma NotCommitting(s: State, p: nat, q: nat)
    requires Inv(s) && p < |s.pc| && q < |s.pc| && Grips(s.pc[p], q)
    ensures !s.pc[q].Sleep3? && q != p
  {
    assert GripAt(s, p, q) && LockAt(s, q);
  }

  lemma KeepsParent(s: State, p: nat, t: State, q: nat)
    requires Inv(s) && p < |s.pc| && q < |s.pc| && PassEffect(s, p, t) && FamilyEffect(s, p, t) && DozeEffect(s, p, t)
    ensures ParentAt(t, q)
  {
    hide WlAt, LockAt, GripAt, ScanAt, SleepAt;
    assert ParentAt(s, q) && LifeAt(s, q);
    var r := t.parent[q];
    if r < |s.pc| && r < Passed(t.pc[q], |s.pc|) && Committed(t, r) {
      CommitsOnly(s, p, t, r);
      if q == p {
        if s.pc[p] == ParWakeIn(r) {
          NotCommitting(s, p, r);
        }
      } else if HoldsWl(s.pc[p]) {
        Exclusive(s, p, q);
      }
      assert false;
    }
  }

  lemma PendingKept(s: State, p: nat, t: State)
    requires Inv(s) && p < |s.pc| && Pending(s) && WlEffect(s, p, t) && DozeEffect(s, p, t) && Step(s, p, t)
    ensures Pending(t) || !Committed(t, s.init)
  {
    hide LockAt, GripAt, ScanAt, ParentAt, SleepAt, WaitStep;
    var w := s.wl.p;
    assert WlAt(s, w) && WlAt(s, p) && LifeAt(s, s.init) && LifeAt(s, p);
    if w == p {
      if WaitStep(s, p, t) {
        WaitOnly(s, p, t);
      }
      if s.pc[p].RepWakeIn? && s.pc[p].j == s.init {
        NotCommitting(s, p, s.init);
      }
    }
  }

  lemma WaitOnly(s: State, p: nat, t: State)
    requires Shaped(s) && p < |s.pc| && WaitStep(s, p, t)
    ensures !Exiting(s.pc[p])
  {
  }

  lemma KeepsSleep(s: State, p: nat, t: State, q: nat, c: nat)
    requires Inv(s) && p < |s.pc| && q < |s.pc| && c < |s.pc| && Step(s, p, t)
    requires WlEffect(s, p, t) && FamilyEffect(s, p, t) && DozeEffect(s, p, t)
    ensures SleepAt(t, q, c)
  {
    hide LockAt, GripAt, Step;
    if Committed(t, q) && t.zombie[c] && t.parent[c] == q {
      CommitsOnly(s, p, t, q);
      assert SleepAt(s, q, c) && ScanAt(s, p, c) && ParentAt(s, p) && WlAt(s, p);
      if Pending(s) {
        PendingKept(s, p, t);
      }
    }
  }

  lemma StepInv(s: State, p: nat, t: State)
    requires Inv(s) && p < |s.pc| && Step(s, p, t)
    ensures Inv(t)
  {
    hide Step, WlEffect, LockEffect, DozeEffect, FamilyEffect, ScanEffect, PassEffect, WlAt, LockAt, GripAt;
    hide LifeAt, ScanAt, ParentAt, SleepAt;
    StepWl(s, p, t);
    StepLock(s, p, t);
    StepDoze(s, p, t);
    StepFamily(s, p, t);
    StepScan(s, p, t);
    StepPass(s, p, t);
    StepShape(s, p, t);
    KeepsWl(s, p, t, p);
    forall q: nat | q < |t.pc|
      ensures WlAt(t, q) && LockAt(t, q) && LifeAt(t, q) && ParentAt(t, q)
    {
      KeepsWl(s, p, t, q);
      KeepsLock(s, p, t, q);
      KeepsLife(s, p, t, q);
      KeepsParent(s, p, t, q);
    }
    forall q: nat, i: nat | q < |t.pc|
      ensures GripAt(t, q, i)
    {
      KeepsGrip(s, p, t, q, i);
    }
    forall q: nat, k: nat | q < |t.pc| && k < |t.pc|
      ensures ScanAt(t, q, k) && SleepAt(t, q, k)
    {
      KeepsScan(s, p, t, q, k);
      KeepsSleep(s, p, t, q, k);
    }
  }

  lemma StepShape(s: State, p: nat, t: State)
    requires Shaped(s) && p < |s.pc| && WlEffect(s, p, t)
    ensures Shaped(t) && |t.pc| == |s.pc|
  {
  }

  lemma KillInv(s: State, p: nat, t: State)
    requires Inv(s) && p < |s.pc| && Kill(s, p, t)
    ensures Inv(t)
  {
    forall q: nat | q < |t.pc|
      ensures WlAt(t, q) && LockAt(t, q) && LifeAt(t, q) && ParentAt(t, q)
    {
      assert WlAt(s, q) && LockAt(s, q) && LifeAt(s, q) && ParentAt(s, q);
    }
    forall q: nat, i: nat | q < |t.pc|
      ensures GripAt(t, q, i)
    {
      assert GripAt(s, q, i);
    }
    forall q: nat, k: nat | q < |t.pc| && k < |t.pc|
      ensures ScanAt(t, q, k) && SleepAt(t, q, k)
    {
      assert ScanAt(s, q, k) && SleepAt(s, q, k);
    }
  }

  lemma ForkInv(s: State, p: nat, c: nat, t: State)
    requires Inv(s) && p < |s.pc| && c < |s.pc| && Fork(s, p, c, t)
    ensures Inv(t)
  {
    forall q: nat | q < |t.pc|
      ensures WlAt(t, q) && LockAt(t, q) && LifeAt(t, q) && ParentAt(t, q)
    {
      assert WlAt(s, q) && LockAt(s, q) && LifeAt(s, q) && ParentAt(s, q);
    }
    forall q: nat, i: nat | q < |t.pc|
      ensures GripAt(t, q, i)
    {
      assert GripAt(s, q, i);
    }
    forall q: nat, k: nat | q < |t.pc| && k < |t.pc|
      ensures ScanAt(t, q, k) && SleepAt(t, q, k)
    {
      assert ScanAt(s, q, k) && SleepAt(s, q, k) && LifeAt(s, k);
    }
  }

  /** The child that wait frees has left the CPU for good. */
  lemma ReapsDead(s: State, p: nat, i: nat, t: State)
    requires Inv(s) && p < |s.pc| && i < |s.pc| && Reap(s, p, i, t)
    ensures s.pc[i].Dead? && i != p && i != s.init && s.plock[i] == By(p)
  {
    hide WlAt, ScanAt, ParentAt, SleepAt;
    assert GripAt(s, p, i) && LockAt(s, i) && LifeAt(s, i);
  }

  lemma ReapInv(s: State, p: nat, i: nat, t: State)
    requires Inv(s) && p < |s.pc| && i < |s.pc| && Reap(s, p, i, t)
    ensures Inv(t)
  {
    ReapsDead(s, p, i, t);
    ReapEach(s, p, i, t);
    forall q: nat, k: nat | q < |t.pc|
      ensures GripAt(t, q, k)
    {
      assert GripAt(s, q, k) && GripAt(s, p, i);
    }
    forall q: nat, k: nat | q < |t.pc| && k < |t.pc|
      ensures ScanAt(t, q, k) && SleepAt(t, q, k)
    {
      assert ScanAt(s, q, k) && SleepAt(s, q, k) && WlAt(s, p);
    }
  }

  lemma ReapEach(s: State, p: nat, i: nat, t: State)
    requires Inv(s) && p < |s.pc| && i < |s.pc| && Reap(s, p, i, t)
    ensures forall q: nat :: q < |t.pc| ==> WlAt(t, q) && LockAt(t, q) && LifeAt(t, q) && ParentAt(t, q)
  {
    hide ScanAt, SleepAt;
    ReapsDead(s, p, i, t);
    forall q: nat | q < |t.pc|
      ensures WlAt(t, q) && LockAt(t, q) && LifeAt(t, q) && ParentAt(t, q)
    {
      assert WlAt(s, q) && LockAt(s, q) && LifeAt(s, q) && ParentAt(s, q) && WlAt(s, p) && LockAt(s, p) && LifeAt(s, i);
    }
  }

  lemma InitInv(s: State)
    requires Init(s)
    ensures Inv(s)
  {
  }

  /** Every state of every run. */
  ghost predicate IsRun(run: seq<State>) {
    && 0 < |run| && Init(run[0])
    && forall k :: 0 <= k < |run| - 1 ==> Shaped(run[k]) && Next(run[k], run[k + 1])
  }

  lemma {:induction false} RunInv(run: seq<State>, k: nat)
    requires IsRun(run) && k < |run|
    ensures Inv(run[k])
  {
    hide Inv, Init, Step, Reap, Fork, Kill;
    if k == 0 {
      InitInv(run[0]);
    } else {
      RunInv(run, k - 1);
      var s, t := run[k - 1], run[k];
      assert Next(s, t);
      var p: nat, q: nat :| p < |s.pc| && q < |s.pc| && Move(s, p, q, t);
      if Step(s, p, t) {
        StepInv(s, p, t);
      } else if Reap(s, p, q, t) {
        ReapInv(s, p, q, t);
      } else if Fork(s, p, q, t) {
        ForkInv(s, p, q, t);
      } else {
        KillInv(s, p, t);
      }
    }
  }

  /** No lost child: while wait_lock is free, no parent sleeps in wait while it has a ZOMBIE child,
      be the child its own or inherited from a process that has exited. */
  lemma NoLostChild(run: seq<State>, k: nat, q: nat, c: nat)
    requires IsRun(run) && k < |run| && run[k].wl.Free? && q < |run[k].pc| && c < |run[k].pc|
    ensures Shaped(run[k]) && !(run[k].sleeping[q] && run[k].zombie[c] && run[k].parent[c] == q)
  {
    hide WlAt, LockAt, GripAt, LifeAt, ScanAt, ParentAt;
    RunInv(run, k);
    assert SleepAt(run[k], q, c);
  }

  // Families: who is whose child, over every run.

  /** Past its call of reparent for good, or no process at all. */
  predicate Gone(c: Pc) {
    c.ParWake? || c.ParWakeIn? || c.Exit3? || c.Exit4? || c.Exit5? || c.Exit6? || c.Dead? || c.Unused?
  }

  /** How many slots are known to hold no child of a process at c. */
  function Cleared(c: Pc, n: nat): nat {
    if Gone(c) then n else if c.Rep? then c.i else if c.RepWake? || c.RepWakeIn? then c.i + 1 else 0
  }

  ghost predicate OrphanAt(s: State, p: nat, k: nat)
    requires Shaped(s) && p < |s.pc| && k < |s.pc|
  {
    k < Cleared(s.pc[p], |s.pc|) ==> s.parent[k] != p
  }

  /** All processes but init have a parent, and a free slot has none. */
  ghost predicate LinkAt(s: State, k: nat)
    requires Shaped(s) && k < |s.pc|
  {
    s.parent[k] <= |s.pc| && (s.parent[k] < |s.pc| <==> !s.pc[k].Unused? && k != s.init)
  }

  /** The child whose lock wait holds is a child of its own. */
  ghost predicate MineAt(s: State, p: nat)
    requires Shaped(s) && p < |s.pc|
  {
    s.pc[p].ScanIn? ==> s.pc[p].kids && s.pc[p].i < |s.pc| && s.parent[s.pc[p].i] == p
  }

  ghost predicate HasKid(s: State, p: nat)
    requires Shaped(s)
  {
    exists k: nat :: k < |s.pc| && s.parent[k] == p
  }

  predicate Expects(c: Pc) {
    (c.Scan? && c.kids) || c.Sleep1? || c.Sleep2? || c.Sleep3? || c.Sleep4? || c.Asleep? || c.Sleep5?
  }

  /** A process sleeps in wait only while it has a child. */
  ghost predicate KidAt(s: State, p: nat)
    requires Shaped(s) && p < |s.pc|
  {
    Expects(s.pc[p]) ==> HasKid(s, p)
  }

  /** A scan that has met no child so far has passed none. */
  ghost predicate BarrenAt(s: State, p: nat, k: nat)
    requires Shaped(s) && p < |s.pc| && k < |s.pc|
  {
    s.pc[p].Scan? && !s.pc[p].kids && k < s.pc[p].i ==> s.parent[k] != p
  }

  ghost predicate Kin(s: State)
    requires Shaped(s)
  {
    && (forall p: nat, k: nat :: p < |s.pc| && k < |s.pc| ==> OrphanAt(s, p, k))
    && (forall p: nat, k: nat :: p < |s.pc| && k < |s.pc| ==> BarrenAt(s, p, k))
    && (forall k: nat :: k < |s.pc| ==> LinkAt(s, k))
    && (forall p: nat :: p < |s.pc| ==> MineAt(s, p))
    && (forall p: nat :: p < |s.pc| ==> KidAt(s, p))
  }

  ghost predicate ClearEffect(s: State, p: nat, t: State)
    requires Shaped(s) && p < |s.pc|
  {
    && Same(s, p, t) && (Cleared(t.pc[p], |s.pc|) > 0 ==> Exiting(t.pc[p]))
    && forall k: nat :: k < |s.pc| && k < Cleared(t.pc[p], |s.pc|) ==>
         k < Cleared(s.pc[p], |s.pc|) || s.parent[k] != p || t.parent[k] == s.init
  }

  ghost predicate KidEffect(s: State, p: nat, t: State)
    requires Shaped(s) && p < |s.pc|
  {
    && Same(s, p, t) && (Expects(t.pc[p]) ==> Expects(s.pc[p]) || s.pc[p].ScanIn?)
    && (t.pc[p].ScanIn? ==> t.pc[p].kids && t.pc[p].i < |s.pc| && s.parent[t.pc[p].i] == p)
    && (t.pc[p].Scan? && !t.pc[p].kids && !(s.pc[p].ScanIn? && !s.pc[p].kids) ==>
          forall k: nat :: k < |s.pc| && k < t.pc[p].i ==>
            s.parent[k] != p || (s.pc[p].Scan? && !s.pc[p].kids && k < s.pc[p].i))
  }

  lemma WaitClear(s: State, p: nat, t: State)
    requires Shaped(s) && p < |s.pc| && WaitStep(s, p, t)
    ensures ClearEffect(s, p, t)
  {
  }

  lemma ExitClear(s: State, p: nat, t: State)
    requires Shaped(s) && p < |s.pc| && ExitStep(s, p, t)
    ensures ClearEffect(s, p, t)
  {
  }

  lemma StepClear(s: State, p: nat, t: State)
    requires Shaped(s) && p < |s.pc| && Step(s, p, t)
    ensures ClearEffect(s, p, t)
  {
    hide WaitStep, ExitStep;
    if WaitStep(s, p, t) {
      WaitClear(s, p, t);
    } else if ExitStep(s, p, t) {
      ExitClear(s, p, t);
    }
  }

  lemma WaitKid(s: State, p: nat, t: State)
    requires Shaped(s) && p < |s.pc| && WaitStep(s, p, t)
    ensures KidEffect(s, p, t)
  {
  }

  lemma ExitKid(s: State, p: nat, t: State)
    requires Shaped(s) && p < |s.pc| && ExitStep(s, p, t)
    ensures KidEffect(s, p, t)
  {
  }

  lemma StepKid(s: State, p: nat, t: State)
    requires Shaped(s) && p < |s.pc| && Step(s, p, t)
    ensures KidEffect(s, p, t)
  {
    hide WaitStep, ExitStep;
    if WaitStep(s, p, t) {
      WaitKid(s, p, t);
    } else if ExitStep(s, p, t) {
      ExitKid(s, p, t);
    }
  }

  /** A step of p takes no child from anybody but p. */
  lemma KeepsKin(s: State, p: nat, t: State, q: nat)
    requires Inv(s) && Kin(s) && p < |s.pc| && q < |s.pc| && KidEffect(s, p, t) && FamilyEffect(s, p, t)
    ensures LinkAt(t, q) && MineAt(t, q) && KidAt(t, q)
  {
    hide BarrenAt, WlAt, LockAt, GripAt, ScanAt, ParentAt, SleepAt, OrphanAt;
    assert LinkAt(s, q) && MineAt(s, q) && KidAt(s, q) && MineAt(s, p) && LifeAt(s, q);
    if Expects(t.pc[q]) {
      assert HasKid(s, q);
      var k: nat :| k < |s.pc| && s.parent[k] == q;
      assert t.parent[k] == q;
    }
  }

  lemma KeepsBarren(s: State, p: nat, t: State, q: nat, k: nat)
    requires Inv(s) && Kin(s) && p < |s.pc| && q < |s.pc| && k < |s.pc|
    requires KidEffect(s, p, t) && FamilyEffect(s, p, t)
    ensures BarrenAt(t, q, k)
  {
    hide WlAt, LockAt, GripAt, ScanAt, ParentAt, SleepAt, LinkAt, KidAt, OrphanAt;
    assert BarrenAt(s, q, k) && MineAt(s, p) && LifeAt(s, p);
    if q != p && HoldsWl(s.pc[q]) && HoldsWl(s.pc[p]) {
      Exclusive(s, p, q);
      assert false;
    }
  }

  lemma KeepsOrphan(s: State, p: nat, t: State, q: nat, k: nat)
    requires Inv(s) && Kin(s) && p < |s.pc| && q < |s.pc| && k < |s.pc|
    requires ClearEffect(s, p, t) && FamilyEffect(s, p, t)
    ensures OrphanAt(t, q, k)
  {
    hide WlAt, LockAt, GripAt, ScanAt, ParentAt, SleepAt, LinkAt, MineAt, KidAt, BarrenAt;
    assert OrphanAt(s, q, k) && LifeAt(s, s.init) && LifeAt(s, p);
  }

  lemma StepKeepsKin(s: State, p: nat, t: State)
    requires Inv(s) && Kin(s) && p < |s.pc| && Step(s, p, t)
    ensures Shaped(t) && Kin(t)
  {
    assert Shaped(s);
    hide Inv, Step, ClearEffect, KidEffect, FamilyEffect, OrphanAt, BarrenAt, LinkAt, MineAt, KidAt;
    StepClear(s, p, t);
    StepKid(s, p, t);
    StepFamily(s, p, t);
    StepWl(s, p, t);
    StepShape(s, p, t);
    forall q: nat | q < |t.pc|
      ensures LinkAt(t, q) && MineAt(t, q) && KidAt(t, q)
    {
      KeepsKin(s, p, t, q);
    }
    forall q: nat, k: nat | q < |t.pc| && k < |t.pc|
      ensures OrphanAt(t, q, k) && BarrenAt(t, q, k)
    {
      KeepsOrphan(s, p, t, q, k);
      KeepsBarren(s, p, t, q, k);
    }
  }

  lemma KillKin(s: State, p: nat, t: State)
    requires Inv(s) && Kin(s) && p < |s.pc| && Kill(s, p, t)
    ensures Shaped(t) && Kin(t)
  {
    hide WlAt, LockAt, GripAt, LifeAt, ScanAt, ParentAt, SleepAt;
    forall q: nat | q < |t.pc|
      ensures LinkAt(t, q) && MineAt(t, q) && KidAt(t, q)
    {
      assert LinkAt(s, q) && MineAt(s, q) && KidAt(s, q);
    }
    forall q: nat, k: nat | q < |t.pc| && k < |t.pc|
      ensures OrphanAt(t, q, k) && BarrenAt(t, q, k)
    {
      assert OrphanAt(s, q, k) && BarrenAt(s, q, k);
    }
  }

  lemma ForkKin(s: State, p: nat, c: nat, t: State)
    requires Inv(s) && Kin(s) && p < |s.pc| && c < |s.pc| && Fork(s, p, c, t)
    ensures Shaped(t) && Kin(t)
  {
    hide WlAt, LockAt, GripAt, ScanAt, ParentAt, SleepAt;
    assert LinkAt(s, c) && LifeAt(s, s.init);
    forall q: nat | q < |t.pc|
      ensures LinkAt(t, q) && MineAt(t, q) && KidAt(t, q)
    {
      assert LinkAt(s, q) && MineAt(s, q) && KidAt(s, q);
      if Expects(t.pc[q]) {
        var k: nat :| k < |s.pc| && s.parent[k] == q;
        assert t.parent[k] == q;
      }
    }
    forall q: nat, k: nat | q < |t.pc| && k < |t.pc|
      ensures OrphanAt(t, q, k) && BarrenAt(t, q, k)
    {
      assert OrphanAt(s, q, k) && BarrenAt(s, q, k);
    }
  }

  lemma ReapKin(s: State, p: nat, i: nat, t: State)
    requires Inv(s) && Kin(s) && p < |s.pc| && i < |s.pc| && Reap(s, p, i, t)
    ensures Shaped(t) && Kin(t)
  {
    ReapsDead(s, p, i, t);
    hide LockAt, GripAt, LifeAt, ScanAt, ParentAt, SleepAt;
    assert MineAt(s, p);
    forall q: nat | q < |t.pc|
      ensures LinkAt(t, q) && MineAt(t, q) && KidAt(t, q)
    {
      assert LinkAt(s, q) && MineAt(s, q) && KidAt(s, q);
      if Expects(t.pc[q]) {
        var k: nat :| k < |s.pc| && s.parent[k] == q;
        assert t.parent[k] == q;
      }
    }
    forall q: nat, k: nat | q < |t.pc| && k < |t.pc|
      ensures OrphanAt(t, q, k) && BarrenAt(t, q, k)
    {
      assert OrphanAt(s, q, k) && BarrenAt(s, q, k);
    }
  }

  lemma MoveKin(s: State, p: nat, q: nat, t: State)
    requires Inv(s) && Kin(s) && p < |s.pc| && q < |s.pc| && Move(s, p, q, t)
    ensures Shaped(t) && Kin(t)
  {
    assert Shaped(s);
    hide Inv, Kin, Step, Reap, Fork, Kill;
    if Step(s, p, t) {
      StepKeepsKin(s, p, t);
    } else if Reap(s, p, q, t) {
      ReapKin(s, p, q, t);
    } else if Fork(s, p, q, t) {
      ForkKin(s, p, q, t);
    } else {
      KillKin(s, p, t);
    }
  }

  lemma InitKin(s: State)
    requires Init(s)
    ensures Kin(s)
  {
  }

  lemma {:induction false} RunKin(run: seq<State>, k: nat)
    requires IsRun(run) && k < |run|
    ensures Inv(run[k]) && Kin(run[k])
  {
    hide Kin, Init, Move;
    RunInv(run, k);
    if k == 0 {
      InitKin(run[0]);
    } else {
      RunKin(run, k - 1);
      var s, t := run[k - 1], run[k];
      assert Next(s, t);
      var p: nat, q: nat :| p < |s.pc| && q < |s.pc| && Move(s, p, q, t);
      MoveKin(s, p, q, t);
    }
  }

  /** exit leaves no child behind: a process that has come past reparent, and a slot that has been
      freed, is nobody's parent. */
  lemma NobodysParent(run: seq<State>, k: nat, p: nat, c: nat)
    requires IsRun(run) && k < |run| && p < |run[k].pc| && c < |run[k].pc|
    ensures Shaped(run[k]) && (Gone(run[k].pc[p]) ==> run[k].parent[c] != p)
  {
    hide WlAt, LockAt, GripAt, LifeAt, ScanAt, ParentAt, SleepAt, LinkAt, MineAt, KidAt;
    RunKin(run, k);
    assert OrphanAt(run[k], p, c);
  }

  /** Somebody can still reap every ZOMBIE: its parent is a process that has not come past reparent,
      and has not begun it when wait_lock is free. */
  lemma ZombieHasParent(run: seq<State>, k: nat, c: nat)
    requires IsRun(run) && k < |run| && c < |run[k].pc|
    ensures Shaped(run[k])
    ensures run[k].zombie[c] ==>
      && run[k].parent[c] < |run[k].pc| && run[k].parent[c] != c && !Gone(run[k].pc[run[k].parent[c]])
      && (run[k].wl.Free? && Exiting(run[k].pc[run[k].parent[c]]) ==> run[k].pc[run[k].parent[c]].Exit0?)
  {
    hide LockAt, GripAt, ScanAt, ParentAt, SleepAt, OrphanAt, MineAt, KidAt;
    RunKin(run, k);
    var s := run[k];
    assert LifeAt(s, c) && LinkAt(s, c);
    if s.zombie[c] {
      NobodysParent(run, k, s.parent[c], c);
      assert WlAt(s, s.parent[c]);
    }
  }

  /** wait frees a child of its own that has left the CPU for good. */
  lemma ReapsOwnChild(run: seq<State>, k: nat, p: nat, i: nat, t: State)
    requires IsRun(run) && k < |run| && Shaped(run[k]) && p < |run[k].pc| && i < |run[k].pc| && Reap(run[k], p, i, t)
    ensures run[k].parent[i] == p && run[k].pc[i].Dead?
  {
    RunKin(run, k);
    assert MineAt(run[k], p);
    ReapsDead(run[k], p, i, t);
  }

  /** wait gives up without a ZOMBIE if and only if the caller has no child or has been killed. */
  lemma GivesUp(run: seq<State>, k: nat, p: nat, t: State)
    requires IsRun(run) && k < |run| && Shaped(run[k]) && p < |run[k].pc| && WaitStep(run[k], p, t)
    requires run[k].pc[p].Scan? && run[k].pc[p].i >= |run[k].pc|
    ensures t.pc[p] == (if !HasKid(run[k], p) || run[k].killed[p] then WaitRet else Sleep1)
  {
    hide Inv;
    RunKin(run, k);
    hide OrphanAt, LinkAt, MineAt;
    var s := run[k];
    assert KidAt(s, p);
    if HasKid(s, p) {
      var c: nat :| c < |s.pc| && s.parent[c] == p;
      assert BarrenAt(s, p, c);
    }
  }

  /** Nobody sleeps in wait without a child to wait for. */
  lemma SleepsForChild(run: seq<State>, k: nat, p: nat)
    requires IsRun(run) && k < |run| && p < |run[k].pc|
    ensures Shaped(run[k]) && (run[k].sleeping[p] ==> HasKid(run[k], p))
  {
    hide WlAt, LockAt, GripAt, ScanAt, ParentAt, SleepAt, LinkAt, MineAt, OrphanAt;
    RunKin(run, k);
    assert KidAt(run[k], p) && LifeAt(run[k], p);
  }

  /** One step hands a child of p on to init or leaves it where it is, and init keeps what it has. */
  lemma MoveParent(s: State, p: nat, q: nat, t: State, c: nat)
    requires Inv(s) && p < |s.pc| && q < |s.pc| && c < |s.pc| && Move(s, p, q, t)
    requires Shaped(t) && |t.pc| == |s.pc| && !s.pc[c].Unused? && !t.pc[c].Unused?
    ensures t.init == s.init && (t.parent[c] == s.parent[c] || t.parent[c] == s.init)
  {
    hide WlAt, LockAt, GripAt, ScanAt, ParentAt, SleepAt, Step;
    if Step(s, p, t) {
      StepFamily(s, p, t);
    } else if Reap(s, p, q, t) {
      ReapsDead(s, p, q, t);
    }
  }

  lemma SameSize(run: seq<State>, k: nat)
    requires IsRun(run) && k + 1 < |run|
    ensures Inv(run[k]) && Inv(run[k + 1]) && |run[k].pc| == |run[k + 1].pc|
  {
    hide Init, Step;
    RunInv(run, k);
    RunInv(run, k + 1);
    assert Next(run[k], run[k + 1]);
    var s, t := run[k], run[k + 1];
    var p: nat, q: nat :| p < |s.pc| && q < |s.pc| && Move(s, p, q, t);
    if Step(s, p, t) {
      StepWl(s, p, t);
      StepShape(s, p, t);
    }
  }

  /** The process in slot c is there all the while from state j to state k. */
  ghost predicate Lives(run: seq<State>, j: nat, k: nat, c: nat) {
    forall m: nat :: j <= m <= k && m < |run| ==> c < |run[m].pc| && !run[m].pc[c].Unused?
  }

  lemma {:induction false} Handed(run: seq<State>, j: nat, k: nat, c: nat)
    requires IsRun(run) && j <= k < |run| && Lives(run, j, k, c)
    ensures Inv(run[j]) && Inv(run[k]) && run[j].init == run[k].init && |run[j].pc| == |run[k].pc|
    ensures run[k].parent[c] == run[j].parent[c] || run[k].parent[c] == run[k].init
    decreases k
  {
    hide Inv, Init, Move;
    RunInv(run, k);
    if j < k {
      Handed(run, j, k - 1, c);
      SameSize(run, k - 1);
      var s, t := run[k - 1], run[k];
      assert Next(s, t);
      var p: nat, q: nat :| p < |s.pc| && q < |s.pc| && Move(s, p, q, t);
      assert c < |s.pc| && !s.pc[c].Unused?;
      Sized(t);
      MoveParent(s, p, q, t, c);
    }
  }

  lemma Sized(s: State)
    requires Inv(s)
    ensures Shaped(s)
  {
  }

  /** A child that outlives its parent's exit is a child of init from then on. */
  lemma Inherited(run: seq<State>, j: nat, k: nat, p: nat, c: nat)
    requires IsRun(run) && j <= k < |run| && Lives(run, j, k, c) && p < |run[j].pc| && p < |run[k].pc|
    requires Shaped(run[j]) && run[j].parent[c] == p && Gone(run[k].pc[p])
    ensures Shaped(run[k]) && run[k].parent[c] == run[k].init
  {
    hide Inv, IsRun;
    Handed(run, j, k, c);
    NobodysParent(run, k, p, c);
  }

  // Nobody waits for ever for a lock.

  /** In the middle of wait or exit, and not SLEEPING. */
  predicate Active(s: State, p: nat)
    requires Shaped(s) && p < |s.pc|
  {
    !s.pc[p].Unused? && !s.pc[p].Run? && !s.pc[p].Dead? && !(s.pc[p].Asleep? && s.sleeping[p])
  }

  /** The process whose p->lock p is about to acquire, if any; |pc| stands for none. */
  function Wants(s: State, p: nat): nat
    requires Shaped(s) && p < |s.pc|
  {
    var n := |s.pc|;
    match s.pc[p]
    case Scan(i, kids) => if i >= n then (if kids then p else n) else if s.parent[i] == p then i else n
    case Sleep1 => p
    case Asleep => p
    case Exit3 => p
    case RepWake(_, j) => if j < n && j != p then j else n
    case ParWake(j) => if j < n && j != p then j else n
    case _ => n
  }

  predicate Ready(s: State, p: nat)
    requires Shaped(s) && p < |s.pc|
  {
    && Active(s, p) && (s.pc[p].Wait0? || s.pc[p].Exit0? ==> s.wl.Free?)
    && (HasGrip(s.pc[p]) ==> GripOf(s.pc[p]) < |s.pc|) && (Wants(s, p) < |s.pc| ==> s.plock[Wants(s, p)].Free?)
  }

  lemma WaitReady(s: State, p: nat)
    requires Shaped(s) && p < |s.pc| && Ready(s, p) && !Exiting(s.pc[p])
    ensures exists t :: WaitStep(s, p, t)
  {
    var c, n := s.pc[p], |s.pc|;
    var t :=
      if c.Wait0? then s.(pc := s.pc[p := Scan(0, false)], wl := By(p))
      else if c.Scan? && c.i >= n then s.(pc := s.pc[p := if c.kids && !s.killed[p] then Sleep1 else WaitRet])
      else if c.Scan? && s.parent[c.i] == p then
        s.(pc := s.pc[p := ScanIn(c.i, true)], plock := s.plock[c.i := By(p)])
      else if c.Scan? then s.(pc := s.pc[p := Scan(c.i + 1, c.kids)])
      else if c.ScanIn? then
        s.(pc := s.pc[p := if s.zombie[c.i] then WaitRet else Scan(c.i + 1, c.kids)], plock := s.plock[c.i := Free])
      else if c.WaitRet? then s.(pc := s.pc[p := Run], wl := Free)
      else if c.Sleep1? then s.(pc := s.pc[p := Sleep2], plock := s.plock[p := By(p)])
      else if c.Sleep2? then s.(pc := s.pc[p := Sleep3], wl := Free)
      else if c.Sleep3? then s.(pc := s.pc[p := Sleep4], sleeping := s.sleeping[p := true])
      else if c.Sleep4? then s.(pc := s.pc[p := Asleep], plock := s.plock[p := Free])
      else if c.Asleep? then s.(pc := s.pc[p := Sleep5], plock := s.plock[p := By(p)])
      else s.(pc := s.pc[p := Wait0], plock := s.plock[p := Free]);
    assert WaitStep(s, p, t);
  }

  lemma ExitReady(s: State, p: nat)
    requires Shaped(s) && p < |s.pc| && Ready(s, p) && Exiting(s.pc[p])
    ensures exists t :: ExitStep(s, p, t)
  {
    var c, n := s.pc[p], |s.pc|;
    var t :=
      if c.Exit0? then s.(pc := s.pc[p := Rep(0)], wl := By(p))
      else if c.Rep? && c.i >= n then s.(pc := s.pc[p := ParWake(0)])
      else if c.Rep? && s.parent[c.i] == p then
        s.(pc := s.pc[p := RepWake(c.i, 0)], parent := s.parent[c.i := s.init])
      else if c.Rep? then s.(pc := s.pc[p := Rep(c.i + 1)])
      else if c.RepWake? && c.j >= n then s.(pc := s.pc[p := Rep(c.i + 1)])
      else if c.RepWake? && c.j == p then s.(pc := s.pc[p := RepWake(c.i, c.j + 1)])
      else if c.RepWake? then s.(pc := s.pc[p := RepWakeIn(c.i, c.j)], plock := s.plock[c.j := By(p)])
      else if c.RepWakeIn? then
        s.(pc := s.pc[p := RepWake(c.i, c.j + 1)], sleeping := Woken(s.sleeping, c.j, s.init),
           plock := s.plock[c.j := Free])
      else if c.ParWake? && c.j >= n then s.(pc := s.pc[p := Exit3])
      else if c.ParWake? && c.j == p then s.(pc := s.pc[p := ParWake(c.j + 1)])
      else if c.ParWake? then s.(pc := s.pc[p := ParWakeIn(c.j)], plock := s.plock[c.j := By(p)])
      else if c.ParWakeIn? then
        s.(pc := s.pc[p := ParWake(c.j + 1)], sleeping := Woken(s.sleeping, c.j, s.parent[p]),
           plock := s.plock[c.j := Free])
      else if c.Exit3? then s.(pc := s.pc[p := Exit4], plock := s.plock[p := By(p)])
      else if c.Exit4? then s.(pc := s.pc[p := Exit5], zombie := s.zombie[p := true])
      else if c.Exit5? then s.(pc := s.pc[p := Exit6], wl := Free)
      else s.(pc := s.pc[p := Dead], plock := s.plock[p := Free]);
    assert ExitStep(s, p, t);
  }

  /** Who holds the lock of process i: i itself, or the holder of wait_lock, which can then go on. */
  lemma LockHolder(s: State, i: nat)
    requires Inv(s) && i < |s.pc| && s.plock[i].By?
    ensures var q := s.plock[i].p;
            q < |s.pc| && (q == i ==> HoldsOwn(s.pc[i])) && (q != i ==> HasGrip(s.pc[q]) && s.wl == By(q))
  {
    hide ScanAt, ParentAt, SleepAt, LifeAt, GripAt;
    var q := s.plock[i].p;
    assert LockAt(s, i);
    if q != i {
      assert WlAt(s, q);
    }
  }

  /** Of the process and the holders of the locks it waits for, one can go on. */
  lemma SomeReady(s: State, p: nat) returns (q: nat)
    requires Inv(s) && p < |s.pc| && Active(s, p) && (s.wl.By? ==> s.wl == By(p))
    ensures q < |s.pc| && Ready(s, q)
  {
    hide ScanAt, ParentAt, SleepAt, LockAt;
    q := p;
    assert WlAt(s, p) && LifeAt(s, p);
    if HasGrip(s.pc[p]) {
      assert GripAt(s, p, GripOf(s.pc[p]));
    }
    var i := Wants(s, p);
    if i < |s.pc| && s.plock[i].By? {
      LockHolder(s, i);
      assert WlAt(s, i);
      q := i;
    }
  }

  /** No deadlock: in every state of every run in which a process is in the middle of wait or exit, and is
      not SLEEPING for a child, a process that is in the middle of wait or exit can take a step. */
  lemma NoDeadlock(run: seq<State>, k: nat, p: nat) returns (q: nat)
    requires IsRun(run) && k < |run| && Shaped(run[k]) && p < |run[k].pc| && Active(run[k], p)
    ensures q < |run[k].pc| && Active(run[k], q) && exists t :: Step(run[k], q, t)
  {
    hide WaitStep, ExitStep, LockAt, GripAt, ScanAt, ParentAt, SleepAt, Wants;
    RunInv(run, k);
    var s := run[k];
    var h := if s.wl.By? then s.wl.p else p;
    if s.wl.By? {
      assert WlAt(s, h);
    }
    q := SomeReady(s, h);
    if Exiting(s.pc[q]) {
      ExitReady(s, q);
      var t :| ExitStep(s, q, t);
      assert Step(s, q, t);
    } else {
      WaitReady(s, q);
      var t :| WaitStep(s, q, t);
      assert Step(s, q, t);
    }
  }
}
