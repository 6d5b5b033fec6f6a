/**
 Living parents: exactly which steps keep them, and what becomes of zombies. As long
 as processes die through `exit`, every process but idle has a living parent, so
 every zombie can still be collected.
 */
module Orphans {
  import opened Wrappers
  import opened ProcessTable
  import opened ProcessOrder
  import opened Zombies
  import opened Scheduling

  predicate Alive(s: System, pid: nat) {
    Present(s.table, pid) && Get(s.table, pid).state != Zombie
  }

  predicate HasParent(s: System, pid: nat) {
    Present(s.table, pid) && pid != 0 ==> Alive(s, Get(s.table, pid).parent)
  }

  /** Every process but idle has a living parent in the table. */
  ghost predicate AllTended(s: System) {
    Ordered(s) && forall pid :: HasParent(s, pid)
  }

  /** And idle and init live. */
  ghost predicate Tended(s: System) {
    AllTended(s) && Alive(s, 0) && Alive(s, 1)
  }

  /** No process but idle has parent `w`. */
  ghost predicate Childless(s: System, w: nat) {
    forall pid :: Present(s.table, pid) && pid != 0 ==> Get(s.table, pid).parent != w
  }

  lemma BootTended()
    ensures Tended(Boot())
  {
    var t := Boot().table;
    FindAt(t, 0);
    FindAt(t, 1);
  }

  /** The step kills nobody by signal, does not end idle or init, and no zombie forks. */
  predicate Orderly(s: System, step: Step) {
    && (step.StepExit? ==> s.current != 0 && s.current != 1)
    && (step.StepTick? && Present(s.table, s.current) ==> TerminatingSignal(Get(s.table, s.current).pending).None?)
    && (step.StepFork? && Present(s.table, s.current) ==> Alive(s, s.current))
  }

  predicate OrderlyRun(s: System, steps: seq<Step>)
    decreases |steps|
  {
    steps == [] || (Orderly(s, steps[0]) && OrderlyRun(Apply(s, steps[0]), steps[1..]))
  }

  // ---- who is alive after a step ----

  lemma CurrentStateKept(s: System, step: Step)
    requires Present(s.table, s.current) && Orderly(s, step)
    requires KeepsSlots(step) && !step.StepExit?
    ensures Present(Apply(s, step).table, s.current)
    ensures Get(Apply(s, step).table, s.current).state == Get(s.table, s.current).state
  {
    SlotsKept(s, step);
    FindSame(s.table, Apply(s, step).table, s.current);
  }

  lemma AliveStep(s: System, step: Step, pid: nat)
    requires Ordered(s) && Orderly(s, step) && Alive(s, pid)
    requires !(step.StepExit? && pid == s.current)
    ensures Alive(Apply(s, step), pid)
  {
    if pid != s.current {
      Frame(s, step, pid);
    } else if step.StepFork? {
      FindAppended(s.table, Child(Get(s.table, pid), s.nextPid), pid);
    } else if step.StepWait? {
      KeptInWait(s, step.target, pid);
    } else {
      CurrentStateKept(s, step);
    }
  }

  // ---- whose child a process is after a step ----

  lemma ParentAfterExit(s: System, code: int, pid: nat)
    requires Present(Exit(s, code).table, pid)
    ensures Present(s.table, pid)
    ensures Get(Exit(s, code).table, pid).parent
         == if Get(s.table, pid).parent == s.current then 1 else Get(s.table, pid).parent
  {
    ExitKeepsSlots(s, code);
    FindSame(s.table, Exit(s, code).table, pid);
  }

  lemma ParentAfterFork(s: System, pid: nat)
    requires Ordered(s) && Present(Fork(s).0.table, pid)
    ensures if Present(s.table, pid) then Get(Fork(s).0.table, pid).parent == Get(s.table, pid).parent
            else Present(s.table, s.current) && Get(Fork(s).0.table, pid).parent == s.current
  {
    if Present(s.table, s.current) {
      FindAppended(s.table, Child(Get(s.table, s.current), s.nextPid), pid);
    }
  }

  lemma ParentAfterWait(s: System, target: Option<nat>, pid: nat)
    requires Ordered(s) && Present(WaitPid(s, target).0.table, pid)
    ensures Present(s.table, pid) && Get(WaitPid(s, target).0.table, pid) == Get(s.table, pid)
  {
    if Present(s.table, pid) {
      KeptInWait(s, target, pid);
    } else if WaitPid(s, target).1.Reaped? {
      RemovedIsAbsent(s.table, FindZombieChild(s.table, s.current, target), pid);
    }
  }

  // ---- which steps keep living parents ----

  /**
   The step leaves nobody without a living parent: an `exit` has nobody to hand over,
   or a living init to hand them to; the current process dies by signal without
   children; and a fork is by a living process and does not wrap the PID counter.
   */
  ghost predicate KeepsParents(s: System, step: Step) {
    && (step.StepExit? ==> Childless(s, s.current) || (s.current != 1 && Alive(s, 1)))
    && (step.StepTick? && Present(s.table, s.current) && TerminatingSignal(Get(s.table, s.current).pending).Some? ==>
          Childless(s, s.current))
    && (step.StepFork? && Present(s.table, s.current) ==> Alive(s, s.current) && s.nextPid + 1 < U32_LIMIT)
  }

  lemma StateAfterExit(s: System, code: int, i: nat)
    requires i < |s.table|
    ensures |Exit(s, code).table| == |s.table|
    ensures Exit(s, code).table[i].state == if i == Find(s.table, s.current) then Zombie else s.table[i].state
  {}

  lemma AliveAfterExit(s: System, code: int, pid: nat)
    ensures Alive(Exit(s, code), pid) <==> Alive(s, pid) && pid != s.current
  {
    ExitKeepsSlots(s, code);
    FindSame(s.table, Exit(s, code).table, pid);
    if Present(s.table, pid) {
      StateAfterExit(s, code, Find(s.table, pid));
    }
  }

  lemma ExitParentIff(s: System, code: int, pid: nat)
    requires AllTended(s)
    ensures HasParent(Exit(s, code), pid)
       <==> (Present(s.table, pid) && pid != 0 && Get(s.table, pid).parent == s.current ==> s.current != 1 && Alive(s, 1))
  {
    ExitKeepsSlots(s, code);
    FindSame(s.table, Exit(s, code).table, pid);
    if Present(s.table, pid) && pid != 0 {
      assert HasParent(s, pid);
      ParentAfterExit(s, code, pid);
      AliveAfterExit(s, code, Get(s.table, pid).parent);
      AliveAfterExit(s, code, 1);
    }
  }

  lemma ExitTendsIff(s: System, code: int)
    requires AllTended(s)
    ensures AllTended(Exit(s, code)) <==> Childless(s, s.current) || (s.current != 1 && Alive(s, 1))
  {
    ExitKeepsSlots(s, code);
    OrderedSame(s, Exit(s, code));
    forall pid
      ensures HasParent(Exit(s, code), pid)
         <==> (Present(s.table, pid) && pid != 0 && Get(s.table, pid).parent == s.current ==> s.current != 1 && Alive(s, 1))
    {
      ExitParentIff(s, code, pid);
    }
  }

  lemma AliveAfterFork(s: System, pid: nat)
    requires Ordered(s) && Present(s.table, pid)
    ensures Alive(Fork(s).0, pid) <==> Alive(s, pid)
  {
    if Present(s.table, s.current) {
      FindAppended(s.table, Child(Get(s.table, s.current), s.nextPid), pid);
    }
  }

  lemma ForkParent(s: System, pid: nat)
    requires AllTended(s) && (Present(s.table, s.current) ==> Alive(s, s.current))
    ensures HasParent(Fork(s).0, pid)
  {
    if Present(Fork(s).0.table, pid) && pid != 0 {
      ParentAfterFork(s, pid);
      assert HasParent(s, pid);
      AliveAfterFork(s, Get(Fork(s).0.table, pid).parent);
    }
  }

  /** The child of a dead process has no living parent. */
  lemma DeadForks(s: System)
    requires Ordered(s) && Present(s.table, s.current) && !Alive(s, s.current)
    ensures !HasParent(Fork(s).0, s.nextPid)
  {
    FindAppended(s.table, Child(Get(s.table, s.current), s.nextPid), s.nextPid);
    ParentAfterFork(s, s.nextPid);
    AliveAfterFork(s, s.current);
  }

  lemma ForkTendsIff(s: System)
    requires AllTended(s) && s.nextPid < U32_LIMIT
    ensures AllTended(Fork(s).0)
       <==> (Present(s.table, s.current) ==> Alive(s, s.current) && s.nextPid + 1 < U32_LIMIT)
  {
    ForkKeepsOrderIff(s);
    if Present(s.table, s.current) && !Alive(s, s.current) {
      DeadForks(s);
    } else {
      forall pid ensures HasParent(Fork(s).0, pid) {
        ForkParent(s, pid);
      }
    }
  }

  lemma WaitParent(s: System, target: Option<nat>, pid: nat)
    requires AllTended(s)
    ensures HasParent(WaitPid(s, target).0, pid)
  {
    if Present(WaitPid(s, target).0.table, pid) && pid != 0 {
      ParentAfterWait(s, target, pid);
      assert HasParent(s, pid);
      KeptInWait(s, target, Get(s.table, pid).parent);
    }
  }

  lemma WaitTends(s: System, target: Option<nat>)
    requires AllTended(s)
    ensures AllTended(WaitPid(s, target).0)
  {
    OrderedWait(s, target);
    forall pid ensures HasParent(WaitPid(s, target).0, pid) {
      WaitParent(s, target, pid);
    }
  }

  /** The same processes with the same parents, states included. */
  predicate SameFamily(a: seq<Process>, b: seq<Process>) {
    SamePids(a, b) && forall i :: 0 <= i < |a| ==> a[i].parent == b[i].parent && a[i].state == b[i].state
  }

  lemma FamilyTends(s: System, t: System)
    requires AllTended(s) && SameFamily(s.table, t.table) && t.nextPid == s.nextPid
    ensures AllTended(t)
  {
    OrderedSame(s, t);
    forall pid ensures HasParent(t, pid) {
      FindSame(s.table, t.table, pid);
      assert HasParent(s, pid);
      if Present(s.table, pid) {
        FindSame(s.table, t.table, Get(s.table, pid).parent);
      }
    }
  }

  lemma TickTable(s: System)
    ensures Tick(s).table == Dispatch(s, s.current).table && Tick(s).nextPid == s.nextPid
  {}

  lemma TickTendsIff(s: System)
    requires AllTended(s)
    ensures AllTended(Tick(s)) <==> KeepsParents(s, StepTick)
  {
    TickTable(s);
    if Present(s.table, s.current) && TerminatingSignal(Get(s.table, s.current).pending).Some? {
      SignalDeathStrands(s, s.current);
      SameTableTends(Dispatch(s, s.current), Tick(s));
    } else {
      FamilyTends(s, Tick(s));
    }
  }

  lemma SameTableTends(s: System, t: System)
    requires s.table == t.table && s.nextPid == t.nextPid
    ensures AllTended(s) <==> AllTended(t)
  {
    forall pid ensures HasParent(s, pid) <==> HasParent(t, pid) {}
  }

  /** For every step: it keeps a living parent for every process exactly under the condition above. */
  lemma TendedIff(s: System, step: Step)
    requires AllTended(s) && s.nextPid < U32_LIMIT
    ensures AllTended(Apply(s, step)) <==> KeepsParents(s, step)
  {
    match step
    case StepExit(code) => ExitTendsIff(s, code);
    case StepFork => ForkTendsIff(s);
    case StepWait(target) => WaitTends(s, target);
    case StepTick => TickTendsIff(s);
    case _ =>
      SlotsKept(s, step);
      FamilyTends(s, Apply(s, step));
  }

  ghost predicate TendedThroughout(s: System, steps: seq<Step>)
    decreases |steps|
  {
    AllTended(s) && (steps == [] || TendedThroughout(Apply(s, steps[0]), steps[1..]))
  }

  ghost predicate KeepsParentsRun(s: System, steps: seq<Step>)
    decreases |steps|
  {
    steps == [] || (KeepsParents(s, steps[0]) && KeepsParentsRun(Apply(s, steps[0]), steps[1..]))
  }

  /** And for every run. */
  lemma {:induction false} TendedRunIff(s: System, steps: seq<Step>)
    requires AllTended(s) && s.nextPid < U32_LIMIT
    ensures TendedThroughout(s, steps) <==> KeepsParentsRun(s, steps)
    decreases |steps|
  {
    if steps != [] {
      TendedIff(s, steps[0]);
      if KeepsParents(s, steps[0]) {
        NextPidFits(s, steps[0]);
        TendedRunIff(Apply(s, steps[0]), steps[1..]);
      }
    }
  }

  lemma NextPidFits(s: System, step: Step)
    requires s.nextPid < U32_LIMIT
    ensures Apply(s, step).nextPid < U32_LIMIT
  {
    if KeepsSlots(step) {
      SlotsKept(s, step);
    }
  }

  // ---- runs in which processes die through `exit` only ----

  lemma TendedStep(s: System, step: Step)
    requires Tended(s) && Orderly(s, step)
    requires step.StepFork? ==> s.nextPid + 1 < U32_LIMIT
    requires s.nextPid < U32_LIMIT
    ensures Tended(Apply(s, step))
  {
    AliveStep(s, step, 0);
    AliveStep(s, step, 1);
    TendedIff(s, step);
  }

  /** In every orderly run every process but idle keeps a living parent. */
  lemma {:induction false} TendedRun(s: System, steps: seq<Step>)
    requires Tended(s) && NoWrap(s, steps) && OrderlyRun(s, steps)
    ensures Tended(Run(s, steps))
    decreases |steps|
  {
    if steps != [] {
      TendedStep(s, steps[0]);
      OrderedStep(s, steps[0]);
      TendedRun(Apply(s, steps[0]), steps[1..]);
    }
  }

  /**
   Deaths are calls of `exit`, not of idle or init, and final: a process that has
   called `exit` (its PID is in `exited`) neither forks nor calls it again. Ticks and
   steps of other processes may come before its forced schedule.
   */
  predicate DiesByExit(s: System, steps: seq<Step>, exited: set<nat>)
    decreases |steps|
  {
    steps == [] ||
    (&& (steps[0].StepExit? ==> s.current != 0 && s.current != 1 && s.current !in exited)
     && (steps[0].StepFork? ==> s.current !in exited)
     && (steps[0].StepTick? && Present(s.table, s.current) ==>
           TerminatingSignal(Get(s.table, s.current).pending).None?)
     && DiesByExit(Apply(s, steps[0]), steps[1..], if steps[0].StepExit? then exited + {s.current} else exited))
  }

  /** A decision leaves a living process current while idle is one. */
  lemma ScheduleFindsAlive(s: System)
    requires Ordered(s) && NoneBlocked(s.table) && Alive(s, 0)
    ensures Alive(Schedule(s), Schedule(s).current)
  {
    var start, n := StartSlot(s.table, s.current), |s.table|;
    var d := Distance(s.table, start, 1);
    assert Find(s.table, 0) == 0;
    assert RunnableAt(s.table, start, n - start);
    FindAt(s.table, Slot(s.table, start, d));
  }

  ghost predicate DeadHaveExited(s: System, exited: set<nat>) {
    forall pid :: IsZombie(s, pid) ==> pid in exited
  }

  lemma FreshIsReady(s: System, step: Step, pid: nat)
    requires Ordered(s) && !Present(s.table, pid) && Present(Apply(s, step).table, pid)
    ensures Get(Apply(s, step).table, pid).state == Ready
  {
    if step.StepFork? {
      if Present(s.table, s.current) {
        FindAppended(s.table, Child(Get(s.table, s.current), s.nextPid), pid);
      }
    } else if step.StepWait? {
      ParentAfterWait(s, step.target, pid);
    } else {
      SlotsKept(s, step);
      FindSame(s.table, Apply(s, step).table, pid);
    }
  }

  lemma DeadHaveExitedStep(s: System, step: Step, exited: set<nat>)
    requires Ordered(s) && Orderly(s, step) && DeadHaveExited(s, exited)
    ensures DeadHaveExited(Apply(s, step), if step.StepExit? then exited + {s.current} else exited)
  {
    var t := Apply(s, step);
    forall pid | IsZombie(t, pid) ensures pid in exited || (step.StepExit? && pid == s.current) {
      if !Present(s.table, pid) {
        FreshIsReady(s, step, pid);
      } else if Alive(s, pid) && !(step.StepExit? && pid == s.current) {
        AliveStep(s, step, pid);
      }
    }
  }

  lemma {:induction false} ExitsAreOrderly(s: System, steps: seq<Step>, exited: set<nat>)
    requires Tended(s) && NoWrap(s, steps) && DeadHaveExited(s, exited) && DiesByExit(s, steps, exited)
    ensures OrderlyRun(s, steps)
    decreases |steps|
  {
    if steps != [] {
      assert Orderly(s, steps[0]);
      TendedStep(s, steps[0]);
      OrderedStep(s, steps[0]);
      DeadHaveExitedStep(s, steps[0], exited);
      ExitsAreOrderly(Apply(s, steps[0]), steps[1..], if steps[0].StepExit? then exited + {s.current} else exited);
    }
  }

  /** In runs from boot in which processes die so, every process but idle has a living parent in the table. */
  lemma NoStrandedZombie(steps: seq<Step>)
    requires DiesByExit(Boot(), steps, {}) && NoWrap(Boot(), steps)
    ensures Tended(Run(Boot(), steps))
  {
    BootTended();
    ExitsAreOrderly(Boot(), steps, {});
    TendedRun(Boot(), steps);
  }

  lemma ExitsLive(steps: seq<Step>)
    requires DiesByExit(Boot(), steps, {}) && NoWrap(Boot(), steps)
    ensures Tended(Run(Boot(), steps)) && Live(Run(Boot(), steps))
  {
    NoStrandedZombie(steps);
    ReachableLive(steps);
  }

  /** A parent that is current collects a zombie child by PID and gets its code. */
  lemma CollectsNow(s: System, z: nat)
    requires Ordered(s) && IsZombie(s, z) && Get(s.table, z).parent == s.current
    ensures WaitPid(s, Some(z)).1 == Reaped(z, Get(s.table, z).exitCode)
  {
    var p := Get(s.table, z);
    assert IsChild(p, s.current, Some(z));
    var i := FindZombieChild(s.table, s.current, Some(z));
    assert i <= Find(s.table, z);
    FindAt(s.table, i);
  }

  /** While its parent is not current a process stays in the table and keeps its parent. */
  lemma NotCollected(s: System, step: Step, z: nat)
    requires Ordered(s) && Present(s.table, z) && Get(s.table, z).parent != s.current
    ensures !Reaps(s, step, z) && Present(Apply(s, step).table, z)
    ensures Get(Apply(s, step).table, z).parent == Get(s.table, z).parent
  {
    if step.StepFork? {
      if Present(s.table, s.current) {
        FindAppended(s.table, Child(Get(s.table, s.current), s.nextPid), z);
      }
    } else if step.StepWait? {
      KeptInWait(s, step.target, z);
      if Reaps(s, step, z) {
        FindAt(s.table, FindZombieChild(s.table, s.current, step.target));
      }
    } else {
      SlotsKept(s, step);
      FindSame(s.table, Apply(s, step).table, z);
      if step.StepExit? {
        ParentAfterExit(s, step.code, z);
      } else {
        ParentsKept(s, step, Find(s.table, z));
      }
    }
  }

  /** A zombie that has lost the processor is there, with its code, when its parent is next current. */
  lemma {:induction false} CollectAt(s: System, steps: seq<Step>, z: nat) returns (i: nat)
    requires Ordered(s) && NoWrap(s, steps) && IsZombie(s, z) && z != s.current
    requires EverCurrent(s, steps, Get(s.table, z).parent)
    ensures i <= |steps|
    ensures var t := Run(s, steps[..i]);
      t.current == Get(s.table, z).parent && WaitPid(t, Some(z)).1 == Reaped(z, Get(s.table, z).exitCode)
    decreases |steps|
  {
    if s.current == Get(s.table, z).parent {
      i := 0;
      CollectsNow(s, z);
    } else {
      OrderedStep(s, steps[0]);
      NotCollected(s, steps[0], z);
      Frame(s, steps[0], z);
      RescheduledIff(s, steps[0], z);
      var k := CollectAt(Apply(s, steps[0]), steps[1..], z);
      i := k + 1;
      assert steps[..i][1..] == steps[1..][..k];
    }
  }

  /**
   So in such runs every zombie can be collected in time: its parent is current or
   runnable, and within n - 1 + f further decisions it is current and its `waitpid`
   for the zombie returns the PID and the code.
   */
  lemma CollectedInTime(steps: seq<Step>, z: nat, more: seq<Step>) returns (i: nat)
    requires DiesByExit(Boot(), steps, {}) && NoWrap(Boot(), steps)
    requires var s := Run(Boot(), steps);
      && IsZombie(s, z) && z != s.current && NoWrap(s, more) && IdleLives(s, more)
      && Decisions(s, more) >= |s.table| - 1 + Forks(more)
    ensures i <= |more|
    ensures var s := Run(Boot(), steps); var t := Run(s, more[..i]); var parent := Get(s.table, z).parent;
      && (parent == s.current || Waiting(s, parent))
      && t.current == parent && WaitPid(t, Some(z)).1 == Reaped(z, Get(s.table, z).exitCode)
  {
    var s := Run(Boot(), steps);
    ExitsLive(steps);
    assert HasParent(s, z);
    var parent := Get(s.table, z).parent;
    if parent != s.current {
      BoundedWaiting(s, more, parent);
    }
    i := CollectAt(s, more, z);
  }

  // ---- death by signal ----

  lemma DispatchAt(s: System, w: nat, pid: nat)
    requires Present(s.table, w) && TerminatingSignal(Get(s.table, w).pending).Some?
    ensures var t := Dispatch(s, w);
      && Find(t.table, pid) == Find(s.table, pid) && |t.table| == |s.table|
      && (Present(s.table, pid) ==>
            Get(t.table, pid) == if pid == w then Deliver(Get(s.table, w)) else Get(s.table, pid))
  {
    var t := Dispatch(s, w);
    assert Get(s.table, w).pending != 0 by {
      assert TerminatingSignal(0) == None;
    }
    assert SamePids(s.table, t.table);
    FindSame(s.table, t.table, pid);
  }

  /** After the signal death of `w` exactly its children are without a living parent. */
  lemma HasParentIff(s: System, w: nat, pid: nat)
    requires AllTended(s) && Present(s.table, w) && TerminatingSignal(Get(s.table, w).pending).Some?
    ensures HasParent(Dispatch(s, w), pid)
       <==> !(Present(s.table, pid) && pid != 0 && Get(s.table, pid).parent == w)
  {
    DispatchAt(s, w, pid);
    if Present(s.table, pid) && pid != 0 {
      assert HasParent(s, pid);
      DispatchAt(s, w, Get(s.table, pid).parent);
    }
  }

  /**
   A signal death does not reparent. It keeps the invariant exactly when the
   process it kills has no children.
   */
  lemma SignalDeathStrands(s: System, w: nat)
    requires AllTended(s) && Present(s.table, w)
    requires TerminatingSignal(Get(s.table, w).pending).Some?
    ensures AllTended(Dispatch(s, w)) <==> Childless(s, w)
  {
    var t := Dispatch(s, w);
    assert SamePids(s.table, t.table);
    OrderedSame(s, t);
    forall pid
      ensures HasParent(t, pid) <==> !(Present(s.table, pid) && pid != 0 && Get(s.table, pid).parent == w)
    {
      HasParentIff(s, w, pid);
    }
  }

  /**
   What it means to be stranded: a process whose parent is dead and not current, or
   gone, is never collected, in any run.
   */
  lemma {:induction false} StrandedForever(s: System, steps: seq<Step>, z: nat)
    requires Ordered(s) && NoWrap(s, steps) && Present(s.table, z)
    requires var parent := Get(s.table, z).parent;
      parent != s.current && parent < s.nextPid && !Alive(s, parent)
    ensures Present(Run(s, steps).table, z) && Codes(ReapLog(s, steps), z) == []
    decreases |steps|
  {
    if steps != [] {
      var parent := Get(s.table, z).parent;
      OrderedStep(s, steps[0]);
      NotCollected(s, steps[0], z);
      RescheduledIff(s, steps[0], parent);
      if Present(s.table, parent) {
        Frame(s, steps[0], parent);
      } else {
        GoneStep(s, steps[0], parent);
      }
      CodesStep(s, steps, z);
      StrandedForever(Apply(s, steps[0]), steps[1..], z);
    }
  }
}
