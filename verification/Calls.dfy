/**
 What the process calls mean for their callers: `fork`, `execve`, `exit` and `kill`,
 by the PIDs in the table, and a forked child from its birth to its collection.
 */
module Calls {
  import opened Wrappers
  import opened ProcessTable
  import opened ProcessOrder
  import opened Zombies
  import opened Signals
  import opened ExitCodes
  import opened Orphans

  // ---- the current process over one step ----

  /** What a step leaves of the current process. */
  predicate CurrentKept(p: Process, q: Process, step: Step) {
    && q.pid == p.pid && q.priority == p.priority && q.kernelRsp == p.kernelRsp
    && (!step.StepExecve? ==> q.name == p.name)
    && (q.parent == p.parent || (step.StepExit? && p.parent == p.pid && q.parent == 1))
    && (!step.StepExit? && !step.StepTick? ==> q.state == p.state && q.exitCode == p.exitCode)
    && (step.StepFork? || step.StepExit? || step.StepWait? || step.StepSchedule? ==> q.pending == p.pending)
  }

  lemma CurrentKeptInSlot(s: System, step: Step)
    requires KeepsSlots(step) && Present(s.table, s.current)
    ensures Present(Apply(s, step).table, s.current)
    ensures CurrentKept(Get(s.table, s.current), Get(Apply(s, step).table, s.current), step)
  {
    SlotsKept(s, step);
    FindSame(s.table, Apply(s, step).table, s.current);
    match step
    case StepExit(code) => ExitIs(s, code, s.current);
    case StepTick => TickAtCurrent(s);
    case StepKill(pid, sig) => KillIs(s, pid, sig, 0);
    case StepExecve(path) => ExecveIs(s, path);
    case StepSchedule =>
  }

  lemma TickAtCurrent(s: System)
    requires Present(s.table, s.current)
    ensures |Tick(s).table| == |s.table|
    ensures var p, q := Get(s.table, s.current), Tick(s).table[Find(s.table, s.current)];
      q.(state := p.state, exitCode := p.exitCode, pending := p.pending) == p
  {
    TickTable(s);
  }

  /** The frame of every step for the current process: its other fields stay, or it is reaped. */
  lemma CurrentFrame(s: System, step: Step)
    requires Ordered(s) && Present(s.table, s.current)
    ensures var t := Apply(s, step).table;
      if Reaps(s, step, s.current) then !Present(t, s.current)
      else Present(t, s.current) && CurrentKept(Get(s.table, s.current), Get(t, s.current), step)
  {
    if step.StepFork? {
      FindAppended(s.table, Child(Get(s.table, s.current), s.nextPid), s.current);
    } else if step.StepWait? {
      KeptInWait(s, step.target, s.current);
    } else {
      CurrentKeptInSlot(s, step);
    }
  }

  // ---- fork ----

  lemma ForkFailsIff(s: System)
    ensures Fork(s).1.None? <==> !Present(s.table, s.current)
    ensures Fork(s).1.None? ==> Fork(s).0 == s
  {}

  /** `child` is a copy of `caller` that is ready and has no signals and no exit code. */
  predicate IsCopy(caller: Process, child: Process) {
    && child.parent == caller.pid && child.pid != caller.pid
    && child.name == caller.name && child.priority == caller.priority && child.kernelRsp == caller.kernelRsp
    && child.state == Ready && child.exitCode == 0 && child.pending == 0
  }

  /** The returned PID is new, the only new one, and that of a copy of the caller; nothing else changes. */
  lemma ForkReturnsChild(s: System)
    requires Ordered(s) && s.nextPid + 1 < U32_LIMIT && Present(s.table, s.current)
    ensures var (t, r) := Fork(s);
      && r.Some? && !Present(s.table, r.value) && Present(t.table, r.value)
      && IsCopy(Get(s.table, s.current), Get(t.table, r.value))
      && t.current == s.current && t.tick == s.tick
      && (forall pid :: Present(t.table, pid) <==> Present(s.table, pid) || pid == r.value)
      && (forall pid :: Present(s.table, pid) ==> Get(t.table, pid) == Get(s.table, pid))
  {
    var (t, r) := Fork(s);
    var child := Child(Get(s.table, s.current), s.nextPid);
    NextIsAbsent(s);
    FindAppended(s.table, child, s.nextPid);
    forall pid
      ensures Present(t.table, pid) <==> Present(s.table, pid) || pid == s.nextPid
      ensures Present(s.table, pid) ==> Present(t.table, pid) && Get(t.table, pid) == Get(s.table, pid)
    {
      FindAppended(s.table, child, pid);
    }
  }

  lemma NextIsAbsent(s: System)
    requires Ordered(s)
    ensures !Present(s.table, s.nextPid)
  {}

  // ---- a forked child is collected by its parent ----

  predicate NeverExits(s: System, steps: seq<Step>, pid: nat)
    decreases |steps|
  {
    steps == [] || (!(steps[0].StepExit? && s.current == pid) && NeverExits(Apply(s, steps[0]), steps[1..], pid))
  }

  lemma ParentStays(s: System, step: Step, z: nat)
    requires Ordered(s) && Present(s.table, z) && Present(Apply(s, step).table, z)
    requires !(step.StepExit? && s.current == Get(s.table, z).parent)
    ensures Get(Apply(s, step).table, z).parent == Get(s.table, z).parent
  {
    if step.StepFork? {
      ParentAfterFork(s, z);
    } else if step.StepWait? {
      ParentAfterWait(s, step.target, z);
    } else if step.StepExit? {
      ParentAfterExit(s, step.code, z);
    } else {
      NotReparented(s, step, z);
    }
  }

  lemma NotReparented(s: System, step: Step, z: nat)
    requires KeepsSlots(step) && !step.StepExit? && Present(s.table, z)
    ensures Present(Apply(s, step).table, z) && Get(Apply(s, step).table, z).parent == Get(s.table, z).parent
  {
    SlotsKept(s, step);
    FindSame(s.table, Apply(s, step).table, z);
    if z == s.current {
      CurrentKeptInSlot(s, step);
    } else {
      KeptParent(s, step, Find(s.table, z));
    }
  }

  lemma KeptParent(s: System, step: Step, i: nat)
    requires KeepsSlots(step) && !step.StepExit? && i < |s.table|
    ensures |Apply(s, step).table| == |s.table| && Apply(s, step).table[i].parent == s.table[i].parent
  {}

  /** A process keeps its parent as long as that does not call `exit`. */
  lemma {:induction false} ParentStaysRun(s: System, steps: seq<Step>, z: nat)
    requires Ordered(s) && NoWrap(s, steps) && Present(s.table, z)
    requires NeverExits(s, steps, Get(s.table, z).parent)
    ensures Present(Run(s, steps).table, z) ==> Get(Run(s, steps).table, z).parent == Get(s.table, z).parent
    decreases |steps|
  {
    if steps != [] {
      var s1 := Apply(s, steps[0]);
      OrderedStep(s, steps[0]);
      if Present(s1.table, z) {
        ParentStays(s, steps[0], z);
        ParentStaysRun(s1, steps[1..], z);
      } else {
        GoneRun(s1, steps[1..], z);
      }
    }
  }

  /** The child of `parent` exits with `code`; later its parent is current and it has been left alone. */
  lemma ExitIsCollected(u: System, child: nat, parent: nat, code: int, b: seq<Step>)
    requires Ordered(u) && NoWrap(u, b) && Present(u.table, child) && u.current == child
    requires Get(u.table, child).parent == parent && parent != child
    requires NeverExits(Exit(u, code), b, parent) && LeftAlone(Exit(u, code), b, child)
    requires Run(Exit(u, code), b).current == parent
    ensures WaitPid(Run(Exit(u, code), b), Some(child)).1 == Reaped(child, code)
  {
    var v := Exit(u, code);
    ExitSetsCode(u, child, code);
    ExitKeepsSlots(u, code);
    OrderedSame(u, v);
    ParentAfterExit(u, code, child);
    CodeFinalIff(v, b, child);
    DeadAtEnd(v, b, child, code);
    ParentStaysRun(v, b, child);
    OrderedRun(v, b);
    CollectsNow(Run(v, b), child);
  }

  lemma {:induction false} DeadAtEnd(s: System, steps: seq<Step>, w: nat, code: int)
    requires StaysDead(s, steps, w, code)
    ensures DiedWith(Run(s, steps), w, code)
    decreases |steps|
  {
    if steps != [] {
      DeadAtEnd(Apply(s, steps[0]), steps[1..], w, code);
    }
  }

  /**
   From `fork` to `waitpid`: if the child whose PID `fork` returned at some point exits
   with `code`, and the caller, which does not exit itself, is current again before
   anything reaps the child or gives it another code, then `waitpid` for the PID that
   `fork` returned gives that PID and `code`.
   */
  lemma ForkedChildIsCollected(s: System, a: seq<Step>, code: int, b: seq<Step>)
    requires Ordered(s) && s.nextPid + 1 + Forks(a) + Forks(b) < U32_LIMIT && Present(s.table, s.current)
    requires var (t, child) := Fork(s); var u := Run(t, a); var v := Exit(u, code);
      && child.Some? && u.current == child.value && Present(u.table, child.value)
      && NeverExits(t, a, s.current) && NeverExits(v, b, s.current)
      && LeftAlone(v, b, child.value) && Run(v, b).current == s.current
    ensures var (t, child) := Fork(s);
      WaitPid(Run(Exit(Run(t, a), code), b), child).1 == Reaped(child.value, code)
  {
    var (t, child) := Fork(s);
    var u := Run(t, a);
    ForkReturnsChild(s);
    OrderedFork(s);
    OrderedRun(t, a);
    ForksCount(t, a);
    ParentStaysRun(t, a, child.value);
    ExitIsCollected(u, child.value, s.current, code, b);
  }

  lemma {:induction false} ForksCount(s: System, steps: seq<Step>)
    requires Ordered(s) && NoWrap(s, steps)
    ensures Run(s, steps).nextPid <= s.nextPid + Forks(steps)
    decreases |steps|
  {
    if steps != [] {
      OrderedStep(s, steps[0]);
      ForksCount(Apply(s, steps[0]), steps[1..]);
    }
  }

  // ---- execve ----

  /** `name` is what follows the last slash of `path`. */
  ghost predicate IsLastComponent(name: string, path: string) {
    && '/' !in name && |name| <= |path| && path[|path| - |name|..] == name
    && (|name| == |path| || path[|path| - |name| - 1] == '/')
  }

  /** `execve` renames the caller and drops its signals, if the caller is there, and changes nothing else. */
  lemma ExecveIs(s: System, path: string)
    ensures var (t, ok) := Execve(s, path);
      && (ok <==> Present(s.table, s.current)) && (!ok ==> t == s)
      && t == s.(table := t.table) && |t.table| == |s.table|
      && (forall i :: 0 <= i < |s.table| && i != Find(s.table, s.current) ==> t.table[i] == s.table[i])
      && (ok ==> && Present(t.table, s.current)
                 && var p, q := Get(s.table, s.current), Get(t.table, s.current);
                    && IsLastComponent(q.name, path) && q.pending == 0
                    && q.(name := p.name, pending := p.pending) == p)
  {
    var t := Execve(s, path).0;
    assert SamePids(s.table, t.table);
    FindSame(s.table, t.table, s.current);
    BaseNameIs(path);
  }

  lemma {:induction false} KillsKeepCurrent(s: System, w: nat, sigs: seq<bv8>)
    ensures Run(s, Kills(w, sigs)).current == s.current
    decreases |sigs|
  {
    if sigs != [] {
      assert Kills(w, sigs)[1..] == Kills(w, sigs[1..]);
      KillsKeepCurrent(Kill(s, w, sigs[0]).0, w, sigs[1..]);
    }
  }

  lemma CalmTick(s: System)
    requires Present(s.table, s.current) && Get(s.table, s.current).pending == 0
    ensures Tick(s).table == s.table
  {}

  /** Whatever signals the caller has been sent: after an `execve` the next tick leaves it as it was. */
  lemma ExecveEscapes(s: System, sigs: seq<bv8>, path: string)
    requires Present(s.table, s.current)
    ensures var t := Tick(Execve(Run(s, Kills(s.current, sigs)), path).0).table;
      && Present(t, s.current) && Get(t, s.current).state == Get(s.table, s.current).state
      && Get(t, s.current).exitCode == Get(s.table, s.current).exitCode
  {
    var s1 := Run(s, Kills(s.current, sigs));
    SignalsAccumulate(s, s.current, sigs, SIGKILL);
    KillsKeepCurrent(s, s.current, sigs);
    ExecveIs(s1, path);
    CalmTick(Execve(s1, path).0);
  }

  // ---- exit ----

  /** The caller dies with the code, its children go to init, and nothing else changes. */
  lemma ExitIs(s: System, code: int, pid: nat)
    requires Present(s.table, pid)
    ensures var t := Exit(s, code); var p := Get(s.table, pid);
      && t == s.(table := t.table) && |t.table| == |s.table| && Present(t.table, pid)
      && var q := Get(t.table, pid);
         && q.parent == (if p.parent == s.current then 1 else p.parent)
         && (pid == s.current ==> q.state == Zombie && q.exitCode == code)
         && (pid != s.current ==> q.state == p.state && q.exitCode == p.exitCode)
         && q.(parent := p.parent, state := p.state, exitCode := p.exitCode) == p
  {
    ExitKeepsSlots(s, code);
    FindSame(s.table, Exit(s, code).table, pid);
  }

  // ---- kill ----

  /** The three results of `kill`, by the signal and the PID. */
  lemma KillResultIff(s: System, pid: nat, sig: bv8)
    ensures var r := Kill(s, pid, sig).1;
      && (r == InvalidSignal <==> sig > 31)
      && (r == NoProcess <==> sig <= 31 && !Present(s.table, pid))
      && (r == Sent <==> sig <= 31 && Present(s.table, pid))
  {}

  /** `kill` adds the signal to those pending for the process, and changes nothing else; signal 0 only probes. */
  lemma KillIs(s: System, pid: nat, sig: bv8, k: bv8)
    requires k <= 31
    ensures var (t, r) := Kill(s, pid, sig);
      && t == s.(table := t.table) && |t.table| == |s.table|
      && (forall i :: 0 <= i < |s.table| && i != Find(s.table, pid) ==> t.table[i] == s.table[i])
      && (r != Sent || sig == 0 ==> t == s)
      && (r == Sent && sig != 0 ==>
            && Present(t.table, pid)
            && var p, q := Get(s.table, pid), Get(t.table, pid);
               && q.(pending := p.pending) == p
               && (HasSignal(q.pending, k) <==> HasSignal(p.pending, k) || k == sig))
  {
    var t := Kill(s, pid, sig).0;
    assert SamePids(s.table, t.table);
    FindSame(s.table, t.table, pid);
    if Present(s.table, pid) && sig <= 31 {
      MaskSets(Get(s.table, pid).pending, sig, k);
    }
  }
}
