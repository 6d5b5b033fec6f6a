/**
 Round robin: with idle alive, a runnable process waits at most as many
 scheduling decisions as there were other slots plus the forks meanwhile.
 */
module Scheduling {
  import opened Wrappers
  import opened ProcessTable
  import opened ProcessOrder

  // ---- the parent forest ----

  /** Every process but idle has a parent PID smaller than its own. */
  predicate Forest(table: seq<Process>) {
    forall i :: 0 <= i < |table| ==> table[i].pid == 0 || table[i].parent < table[i].pid
  }

  predicate IdleNeverExits(s: System, steps: seq<Step>)
    decreases |steps|
  {
    steps == [] ||
    (!(steps[0].StepExit? && s.current == 0) && IdleNeverExits(Apply(s, steps[0]), steps[1..]))
  }

  lemma ForestExit(s: System, code: int)
    requires Ordered(s) && Forest(s.table) && s.current != 0
    ensures Forest(Exit(s, code).table)
  {
    var t := Exit(s, code).table;
    forall i | 0 <= i < |t| ensures t[i].pid == 0 || t[i].parent < t[i].pid {
      assert t[i].pid == s.table[i].pid;
      assert t[i].parent == if s.table[i].parent == s.current then 1 else s.table[i].parent;
    }
  }

  lemma ForestWait(s: System, target: Option<nat>)
    requires Forest(s.table)
    ensures Forest(WaitPid(s, target).0.table)
  {}

  /** The steps other than `fork`, `waitpid` and `exit` only touch states, names and signals. */
  lemma ParentsKept(s: System, step: Step, i: nat)
    requires KeepsSlots(step) && !step.StepExit? && i < |s.table|
    ensures |Apply(s, step).table| == |s.table|
    ensures var q := Apply(s, step).table[i];
      && q.pid == s.table[i].pid && q.parent == s.table[i].parent
      && (q.state == s.table[i].state || q.state == Zombie)
  {}

  lemma ForestStep(s: System, step: Step)
    requires Ordered(s) && Forest(s.table)
    requires !(step.StepExit? && s.current == 0)
    ensures Forest(Apply(s, step).table)
  {
    match step
    case StepFork =>
    case StepWait(target) => ForestWait(s, target);
    case StepExit(code) => ForestExit(s, code);
    case _ =>
      var t := Apply(s, step).table;
      forall i | 0 <= i < |t| ensures t[i].pid == 0 || t[i].parent < t[i].pid {
        SlotsKept(s, step);
        ParentsKept(s, step, i);
      }
  }

  /** If PID 0 never calls `exit`, parents are older than their children: no cycles. */
  lemma {:induction false} ForestRun(s: System, steps: seq<Step>)
    requires Ordered(s) && NoWrap(s, steps)
    requires Forest(s.table) && IdleNeverExits(s, steps)
    ensures Forest(Run(s, steps).table)
    decreases |steps|
  {
    if steps != [] {
      OrderedStep(s, steps[0]);
      ForestStep(s, steps[0]);
      ForestRun(Apply(s, steps[0]), steps[1..]);
    }
  }

  /** An `exit` keeps the forest exactly when it is not that of idle, or init is gone. */
  lemma ForestExitIff(s: System, code: int)
    requires Ordered(s) && Forest(s.table)
    ensures Forest(Exit(s, code).table) <==> s.current != 0 || !Present(s.table, 1)
  {
    var t := Exit(s, code).table;
    if s.current != 0 {
      ForestExit(s, code);
    } else {
      ExitKeepsSlots(s, code);
      forall i | 0 <= i < |t| ensures t[i].pid == 0 || t[i].parent < t[i].pid || t[i].pid == 1 {
        assert t[i].parent == if s.table[i].parent == 0 then 1 else s.table[i].parent;
      }
      if Present(s.table, 1) {
        var i := Find(s.table, 1);
        assert t[i].pid == 1 && t[i].parent == 1;
      } else {
        assert forall i :: 0 <= i < |t| ==> t[i].pid == s.table[i].pid != 1;
      }
    }
  }

  /** For instance at boot, where an `exit` of idle makes init its own parent. */
  lemma IdleExitBreaksForest(code: int)
    ensures Forest(Boot().table) && !Forest(Exit(Boot(), code).table)
  {
    var t := Exit(Boot(), code).table;
    assert t[1].pid == 1 && t[1].parent == 1;
  }

  /** Sortedness makes `waitpid(None)` reap the zombie child with the smallest PID. */
  lemma WaitReapsSmallest(s: System, target: Option<nat>)
    requires Ordered(s) && WaitPid(s, target).1.Reaped?
    ensures var r := WaitPid(s, target).1;
      && (exists p | p in s.table ::
            p.pid == r.pid && p.exitCode == r.code && p.state == Zombie && IsChild(p, s.current, target))
      && (forall p | p in s.table && p.state == Zombie && IsChild(p, s.current, target) :: r.pid <= p.pid)
  {
    var i := FindZombieChild(s.table, s.current, target);
    assert s.table[i] in s.table;
    forall p | p in s.table && p.state == Zombie && IsChild(p, s.current, target)
      ensures s.table[i].pid <= p.pid
    {
      var j :| 0 <= j < |s.table| && s.table[j] == p;
      assert i <= j;
    }
  }

  /** And it fails to reap exactly when there is no such zombie. */
  lemma WaitReapsIff(s: System, target: Option<nat>)
    ensures WaitPid(s, target).1.Reaped?
       <==> exists p | p in s.table :: p.state == Zombie && IsChild(p, s.current, target)
    ensures WaitPid(s, target).1.NoChild? <==> forall p | p in s.table :: !IsChild(p, s.current, target)
  {
    var i := FindZombieChild(s.table, s.current, target);
    if i < |s.table| {
      assert s.table[i] in s.table;
    }
  }

  // ---- states in which scheduling makes progress ----

  predicate IdleAlive(s: System) {
    Present(s.table, 0) && Get(s.table, 0).state != Zombie
  }

  predicate NoneBlocked(table: seq<Process>) {
    forall i :: 0 <= i < |table| ==> table[i].state != Blocked
  }

  predicate Live(s: System) {
    && Ordered(s) && Forest(s.table) && NoneBlocked(s.table)
    && IdleAlive(s) && Present(s.table, s.current)
  }

  /** Idle is alive in every state of the run. */
  predicate IdleLives(s: System, steps: seq<Step>)
    decreases |steps|
  {
    IdleAlive(s) && (steps == [] || IdleLives(Apply(s, steps[0]), steps[1..]))
  }

  lemma BootLive()
    ensures Live(Boot())
  {
    FindAt(Boot().table, 0);
  }

  lemma NoneBlockedExit(s: System, code: int)
    requires NoneBlocked(s.table)
    ensures NoneBlocked(Exit(s, code).table)
  {
    var t := Exit(s, code).table;
    forall i | 0 <= i < |t| ensures t[i].state != Blocked {
      assert t[i].state == s.table[i].state || t[i].state == Zombie;
    }
  }

  lemma NoneBlockedStep(s: System, step: Step)
    requires NoneBlocked(s.table)
    ensures NoneBlocked(Apply(s, step).table)
  {
    match step
    case StepFork =>
    case StepWait(target) =>
    case StepExit(code) => NoneBlockedExit(s, code);
    case _ =>
      SlotsKept(s, step);
      var t := Apply(s, step).table;
      forall i | 0 <= i < |t| ensures t[i].state != Blocked {
        ParentsKept(s, step, i);
      }
  }

  lemma IdleCannotExit(s: System, code: int)
    requires Ordered(s) && s.current == 0
    ensures !IdleAlive(Exit(s, code))
  {
    ExitKeepsSlots(s, code);
    FindSame(s.table, Exit(s, code).table, 0);
  }

  /** The current process is never the one that is reaped, so it stays in the table. */
  lemma CurrentNotReaped(s: System, target: Option<nat>)
    requires Live(s)
    ensures Present(WaitPid(s, target).0.table, s.current)
    ensures !Reaps(s, StepWait(target), s.current)
  {
    KeptInWait(s, target, s.current);
    if Reaps(s, StepWait(target), s.current) {
      FindAt(s.table, FindZombieChild(s.table, s.current, target));
    }
  }

  lemma CurrentPresent(s: System, step: Step)
    requires Live(s)
    ensures Present(Apply(s, step).table, Apply(s, step).current)
  {
    if Apply(s, step).current != s.current {
      CurrentMoves(s, step);
      SlotsKept(s, step);
    } else if step.StepFork? {
      FindAppended(s.table, Child(Get(s.table, s.current), s.nextPid), s.current);
    } else if step.StepWait? {
      CurrentNotReaped(s, step.target);
    } else {
      SlotsKept(s, step);
      FindSame(s.table, Apply(s, step).table, s.current);
    }
  }

  lemma LiveStep(s: System, step: Step)
    requires Live(s) && IdleAlive(Apply(s, step))
    requires step.StepFork? ==> s.nextPid + 1 < U32_LIMIT
    ensures Live(Apply(s, step))
  {
    OrderedStep(s, step);
    if step.StepExit? && s.current == 0 {
      IdleCannotExit(s, step.code);
    }
    ForestStep(s, step);
    NoneBlockedStep(s, step);
    CurrentPresent(s, step);
  }

  lemma LiveTail(s: System, steps: seq<Step>)
    requires Live(s) && NoWrap(s, steps) && IdleLives(s, steps) && steps != []
    ensures var s1 := Apply(s, steps[0]); Live(s1) && NoWrap(s1, steps[1..]) && IdleLives(s1, steps[1..])
  {
    LiveStep(s, steps[0]);
    OrderedStep(s, steps[0]);
  }

  /** In every reachable state with idle alive all of this holds. */
  lemma {:induction false} LiveRun(s: System, steps: seq<Step>)
    requires Live(s) && NoWrap(s, steps) && IdleLives(s, steps)
    ensures Live(Run(s, steps))
    decreases |steps|
  {
    if steps != [] {
      LiveTail(s, steps);
      LiveRun(Apply(s, steps[0]), steps[1..]);
    }
  }

  /** A zombie that is current stays one: no step revives a process. */
  lemma CurrentStaysZombie(s: System, step: Step)
    requires Ordered(s) && Present(s.table, s.current) && Get(s.table, s.current).state == Zombie
    ensures var t := Apply(s, step).table; Present(t, s.current) ==> Get(t, s.current).state == Zombie
  {
    if step.StepFork? {
      FindAppended(s.table, Child(Get(s.table, s.current), s.nextPid), s.current);
    } else if step.StepWait? {
      KeptInWait(s, step.target, s.current);
    } else {
      SlotsKept(s, step);
      FindSame(s.table, Apply(s, step).table, s.current);
      if !step.StepExit? {
        ParentsKept(s, step, Find(s.table, s.current));
      }
    }
  }

  lemma IdleStaysDead(s: System, step: Step)
    requires Ordered(s) && 0 < s.nextPid && !IdleAlive(s)
    ensures !IdleAlive(Apply(s, step))
  {
    if !Present(s.table, 0) {
      GoneStep(s, step, 0);
    } else if s.current == 0 {
      CurrentStaysZombie(s, step);
    } else {
      Frame(s, step, 0);
    }
  }

  /** Idle lives throughout a run exactly when it lives at the end. */
  lemma {:induction false} IdleLivesIff(s: System, steps: seq<Step>)
    requires Ordered(s) && NoWrap(s, steps) && 0 < s.nextPid
    ensures IdleLives(s, steps) <==> IdleAlive(Run(s, steps))
    decreases |steps|
  {
    if steps != [] {
      OrderedStep(s, steps[0]);
      IdleLivesIff(Apply(s, steps[0]), steps[1..]);
      if !IdleAlive(s) {
        IdleStaysDead(s, steps[0]);
        IdleDeadRun(Apply(s, steps[0]), steps[1..]);
      }
    }
  }

  lemma {:induction false} IdleDeadRun(s: System, steps: seq<Step>)
    requires Ordered(s) && NoWrap(s, steps) && 0 < s.nextPid && !IdleAlive(s)
    ensures !IdleAlive(Run(s, steps))
    decreases |steps|
  {
    if steps != [] {
      OrderedStep(s, steps[0]);
      IdleStaysDead(s, steps[0]);
      IdleDeadRun(Apply(s, steps[0]), steps[1..]);
    }
  }

  /** Every state reachable from boot with idle alive is live. */
  lemma ReachableLive(steps: seq<Step>)
    requires NoWrap(Boot(), steps) && IdleAlive(Run(Boot(), steps))
    ensures Live(Run(Boot(), steps))
  {
    BootLive();
    IdleLivesIff(Boot(), steps);
    LiveRun(Boot(), steps);
  }

  // ---- bounded waiting ----

  predicate Waiting(s: System, w: nat) {
    w != s.current && Present(s.table, w) && Get(s.table, w).IsRunnable()
  }

  /** How many slots after the current process `w` stands on the ring. */
  function Rank(s: System, w: nat): (r: nat)
    requires Present(s.table, w) && Present(s.table, s.current) && w != s.current
    ensures 1 <= r <= |s.table| - 1
    ensures Slot(s.table, Find(s.table, s.current), r) == Find(s.table, w)
  {
    var a, b := Find(s.table, s.current), Find(s.table, w);
    if a < b then b - a else b + |s.table| - a
  }

  lemma WaitingStep(s: System, step: Step, w: nat)
    requires Ordered(s) && Waiting(s, w)
    ensures Apply(s, step).current == w || Waiting(Apply(s, step), w)
  {
    Frame(s, step, w);
  }

  /** A decision either picks `w` or brings it strictly closer. */
  lemma RankSchedule(s: System, w: nat)
    requires Ordered(s) && Present(s.table, s.current) && Waiting(s, w)
    ensures Schedule(s).current == w
         || (Waiting(Schedule(s), w) && Present(s.table, Schedule(s).current) && Rank(Schedule(s), w) < Rank(s, w))
  {
    var start, r := Find(s.table, s.current), Rank(s, w);
    var d := Distance(s.table, start, 1);
    assert RunnableAt(s.table, start, r);
    assert d <= r;
    FindAt(s.table, Slot(s.table, start, d));
  }

  /** Taking a third process out of the ring cannot put two others further apart. */
  lemma RankRemoved(s: System, r: nat, w: nat)
    requires Sorted(s.table) && r < |s.table|
    requires Present(s.table, w) && Present(s.table, s.current) && w != s.current
    requires s.table[r].pid != w && s.table[r].pid != s.current
    ensures var t := s.(table := Without(s.table, r));
      Present(t.table, w) && Present(t.table, t.current) && Rank(t, w) <= Rank(s, w)
  {
    FindAt(s.table, r);
    OthersShift(s.table, r, w);
    OthersShift(s.table, r, s.current);
  }

  lemma RankWait(s: System, target: Option<nat>, w: nat)
    requires Live(s) && Waiting(s, w)
    ensures var t := WaitPid(s, target).0;
      Waiting(t, w) && Present(t.table, t.current) && Rank(t, w) <= Rank(s, w)
  {
    KeptInWait(s, target, w);
    CurrentNotReaped(s, target);
    if WaitPid(s, target).1.Reaped? {
      WaitRemoves(s, target);
      RankRemoved(s, FindZombieChild(s.table, s.current, target), w);
    }
  }

  lemma RankFork(s: System, w: nat)
    requires Live(s) && Waiting(s, w)
    ensures var t := Fork(s).0;
      Waiting(t, w) && Present(t.table, t.current) && Rank(t, w) <= Rank(s, w) + 1
  {
    var child := Child(Get(s.table, s.current), s.nextPid);
    FindAppended(s.table, child, w);
    FindAppended(s.table, child, s.current);
  }

  lemma RankSame(s: System, t: System, w: nat)
    requires Present(s.table, w) && Present(s.table, s.current) && w != s.current
    requires SamePids(s.table, t.table) && t.current == s.current
    ensures Present(t.table, w) && Present(t.table, t.current) && Rank(t, w) == Rank(s, w)
  {
    FindSame(s.table, t.table, w);
    FindSame(s.table, t.table, s.current);
  }

  lemma DispatchKeepsWaiting(s: System, w: nat)
    requires Ordered(s) && Present(s.table, s.current) && Waiting(s, w)
    ensures var t := Dispatch(s, s.current);
      Ordered(t) && Present(t.table, t.current) && Waiting(t, w) && Rank(t, w) == Rank(s, w)
  {
    var t := Dispatch(s, s.current);
    assert SamePids(s.table, t.table);
    OrderedSame(s, t);
    RankSame(s, t, w);
    FindSame(s.table, t.table, w);
  }

  /** A tick first delivers signals, then may decide. */
  lemma RankTick(s: System, w: nat)
    requires Ordered(s) && Present(s.table, s.current) && Waiting(s, w) && SliceEnds(s)
    ensures Tick(s).current == w
         || (Waiting(Tick(s), w) && Present(Tick(s).table, Tick(s).current) && Rank(Tick(s), w) < Rank(s, w))
  {
    var s0 := s.(tick := s.tick + 1);
    RankSame(s, s0, w);
    DispatchKeepsWaiting(s0, w);
    var s1 := Dispatch(s0, s.current);
    assert Tick(s) == Schedule(s1);
    RankSchedule(s1, w);
  }

  /** The step costs the decisions it takes in rank and adds at most the forks it makes. */
  predicate RankBalance(s: System, step: Step, w: nat)
    requires Waiting(s, w) && Present(s.table, s.current)
  {
    var t := Apply(s, step);
    || t.current == w
    || (&& Waiting(t, w) && Present(t.table, t.current)
        && Rank(t, w) + (if Decides(s, step) then 1 else 0) <= Rank(s, w) + (if step.StepFork? then 1 else 0))
  }

  lemma RankQuiet(s: System, step: Step, w: nat)
    requires Ordered(s) && Present(s.table, s.current) && Waiting(s, w)
    requires KeepsSlots(step) && !Decides(s, step)
    ensures RankBalance(s, step, w)
  {
    SlotsKept(s, step);
    WaitingStep(s, step, w);
    RankSame(s, Apply(s, step), w);
  }

  lemma RankStep(s: System, step: Step, w: nat)
    requires Live(s) && Waiting(s, w)
    ensures RankBalance(s, step, w)
  {
    match step
    case StepFork => RankFork(s, w);
    case StepWait(target) => RankWait(s, target, w);
    case StepSchedule => RankSchedule(s, w);
    case StepTick => if SliceEnds(s) { RankTick(s, w); } else { RankQuiet(s, step, w); }
    case _ => RankQuiet(s, step, w);
  }

  predicate EverCurrent(s: System, steps: seq<Step>, w: nat)
    decreases |steps|
  {
    s.current == w || (steps != [] && EverCurrent(Apply(s, steps[0]), steps[1..], w))
  }

  /** As long as `w` has not run, the decisions are paid for by its rank and the forks. */
  lemma {:induction false} WaitingRun(s: System, steps: seq<Step>, w: nat)
    requires Live(s) && NoWrap(s, steps) && IdleLives(s, steps)
    requires Waiting(s, w) && !EverCurrent(s, steps, w)
    ensures var t := Run(s, steps);
      && Live(t) && Waiting(t, w)
      && Decisions(s, steps) + Rank(t, w) <= Rank(s, w) + Forks(steps)
    decreases |steps|
  {
    if steps != [] {
      LiveTail(s, steps);
      RankStep(s, steps[0], w);
      WaitingRun(Apply(s, steps[0]), steps[1..], w);
    }
  }

  /**
   Bounded waiting: with idle alive, under any interleaving of steps, a waiting
   runnable process is current after at most n - 1 + f scheduling decisions, for
   n the slots at the start and f the forks on the way.
   */
  lemma BoundedWaiting(s: System, steps: seq<Step>, w: nat)
    requires Live(s) && NoWrap(s, steps) && IdleLives(s, steps) && Waiting(s, w)
    requires Decisions(s, steps) >= |s.table| - 1 + Forks(steps)
    ensures EverCurrent(s, steps, w)
  {
    if !EverCurrent(s, steps, w) {
      WaitingRun(s, steps, w);
    }
  }

  lemma TickCarry(t: nat, n: nat)
    ensures (t + 1 + n) / TIMESLICE - t / TIMESLICE
         == (t + 1 + n) / TIMESLICE - (t + 1) / TIMESLICE + (if (t + 1) % TIMESLICE == 0 then 1 else 0)
  {}

  /** Every tenth tick decides, whatever happens in between. */
  lemma {:induction false} TicksDecide(s: System, steps: seq<Step>)
    ensures Decisions(s, steps) >= (s.tick + Ticks(steps)) / TIMESLICE - s.tick / TIMESLICE
    decreases |steps|
  {
    if steps != [] {
      var s1, n := Apply(s, steps[0]), Ticks(steps[1..]);
      TickOf(s, steps[0]);
      TicksDecide(s1, steps[1..]);
      TickCarry(s.tick, n);
    }
  }

  lemma TickOf(s: System, step: Step)
    ensures Apply(s, step).tick == s.tick + (if step.StepTick? then 1 else 0)
  {}

  /** The same bound on the clock: 10 * (n - 1 + f) timer ticks suffice. */
  lemma BoundedWaitingInTicks(s: System, steps: seq<Step>, w: nat)
    requires Live(s) && NoWrap(s, steps) && IdleLives(s, steps) && Waiting(s, w)
    requires Ticks(steps) >= TIMESLICE * (|s.table| - 1 + Forks(steps))
    ensures EverCurrent(s, steps, w)
  {
    TicksDecide(s, steps);
    var bound := |s.table| - 1 + Forks(steps);
    assert (s.tick + Ticks(steps)) / TIMESLICE >= (s.tick + TIMESLICE * bound) / TIMESLICE == s.tick / TIMESLICE + bound;
    BoundedWaiting(s, steps, w);
  }
}
