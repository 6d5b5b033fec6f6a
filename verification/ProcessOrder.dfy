/**
 The table stays sorted by PID, and what a single step leaves of every process
 that is not the current one. Everything else about runs rests on these.
 */
module ProcessOrder {
  import opened Wrappers
  import opened ProcessTable

  // ---- finding PIDs in changed tables ----

  lemma FindAt(table: seq<Process>, i: nat)
    requires Sorted(table) && i < |table|
    ensures Find(table, table[i].pid) == i
  {
    var k := Find(table, table[i].pid);
    assert k <= i;
  }

  predicate SamePids(a: seq<Process>, b: seq<Process>) {
    |a| == |b| && forall i :: 0 <= i < |a| ==> a[i].pid == b[i].pid
  }

  lemma FindSame(a: seq<Process>, b: seq<Process>, pid: nat)
    requires SamePids(a, b)
    ensures Find(a, pid) == Find(b, pid)
  {
    var i, j := Find(a, pid), Find(b, pid);
    assert i < |a| ==> b[i].pid == pid;
    assert j < |b| ==> a[j].pid == pid;
  }

  lemma FindAppended(table: seq<Process>, c: Process, pid: nat)
    ensures Present(table, pid) ==> Find(table + [c], pid) == Find(table, pid)
    ensures !Present(table, pid) && c.pid == pid ==> Find(table + [c], pid) == |table|
    ensures !Present(table, pid) && c.pid != pid ==> !Present(table + [c], pid)
  {
    var t := table + [c];
    var i, j := Find(table, pid), Find(t, pid);
    if i < |table| {
      assert t[i].pid == pid;
    } else if c.pid == pid {
      assert t[|table|].pid == pid;
    }
  }

  function Without(table: seq<Process>, r: nat): seq<Process>
    requires r < |table|
  {
    table[..r] + table[r + 1..]
  }

  lemma WithoutSorted(table: seq<Process>, r: nat)
    requires Sorted(table) && r < |table|
    ensures Sorted(Without(table, r))
  {
    var t := Without(table, r);
    forall i, j | 0 <= i < j < |t| ensures t[i].pid < t[j].pid {
      assert t[i] == table[if i < r then i else i + 1];
      assert t[j] == table[if j < r then j else j + 1];
    }
  }

  lemma RemovedIsAbsent(table: seq<Process>, r: nat, pid: nat)
    requires Sorted(table) && r < |table|
    requires table[r].pid == pid || !Present(table, pid)
    ensures !Present(Without(table, r), pid)
  {
    var t := Without(table, r);
    forall j | 0 <= j < |t| ensures t[j].pid != pid {
      assert t[j] == table[if j < r then j else j + 1];
    }
  }

  lemma OthersShift(table: seq<Process>, r: nat, pid: nat)
    requires Sorted(table) && r < |table| && Present(table, pid) && table[r].pid != pid
    ensures var t, i := Without(table, r), Find(table, pid);
      Find(t, pid) == (if i < r then i else i - 1) && Present(t, pid) && Get(t, pid) == Get(table, pid)
  {
    WithoutSorted(table, r);
    var t, i := Without(table, r), Find(table, pid);
    assert i != r;
    FindAt(t, if i < r then i else i - 1);
  }

  // ---- the order invariant ----

  /** Every step but `fork` and `waitpid` keeps the slots, and all but `fork` keep NEXT_PID. */
  predicate KeepsSlots(step: Step) {
    !step.StepFork? && !step.StepWait?
  }

  lemma ExitKeepsSlots(s: System, code: int)
    ensures SamePids(s.table, Exit(s, code).table)
  {
    var i := Find(s.table, s.current);
    var marked := if i == |s.table| then s.table
                  else s.table[i := s.table[i].(state := Zombie, exitCode := code)];
    assert SamePids(s.table, marked);
  }

  lemma SlotsKept(s: System, step: Step)
    requires KeepsSlots(step)
    ensures SamePids(s.table, Apply(s, step).table) && Apply(s, step).nextPid == s.nextPid
  {
    if step.StepExit? {
      ExitKeepsSlots(s, step.code);
    }
  }

  lemma OrderedSame(s: System, t: System)
    requires Ordered(s) && SamePids(s.table, t.table) && t.nextPid == s.nextPid
    ensures Ordered(t)
  {}

  lemma OrderedFork(s: System)
    requires Ordered(s) && s.nextPid + 1 < U32_LIMIT
    ensures Ordered(Fork(s).0)
    ensures s.nextPid <= Fork(s).0.nextPid <= s.nextPid + 1
  {
    ModuloSmall(s.nextPid + 1, U32_LIMIT);
  }

  lemma OrderedWait(s: System, target: Option<nat>)
    requires Ordered(s)
    ensures Ordered(WaitPid(s, target).0)
  {
    if WaitPid(s, target).1.Reaped? {
      var i := FindZombieChild(s.table, s.current, target);
      WithoutSorted(s.table, i);
      var t := Without(s.table, i);
      forall k | 0 <= k < |t| ensures t[k].pid < s.nextPid {
        assert t[k] == s.table[if k < i then k else k + 1];
      }
    }
  }

  lemma OrderedStep(s: System, step: Step)
    requires Ordered(s)
    requires step.StepFork? ==> s.nextPid + 1 < U32_LIMIT
    ensures Ordered(Apply(s, step))
    ensures s.nextPid <= Apply(s, step).nextPid <= s.nextPid + (if step.StepFork? then 1 else 0)
  {
    if step.StepFork? {
      OrderedFork(s);
    } else if step.StepWait? {
      OrderedWait(s, step.target);
    } else {
      SlotsKept(s, step);
      OrderedSame(s, Apply(s, step));
    }
  }

  /** In every run without PID wrap-around the table is strictly sorted and below NEXT_PID. */
  lemma {:induction false} OrderedRun(s: System, steps: seq<Step>)
    requires Ordered(s) && NoWrap(s, steps)
    ensures Ordered(Run(s, steps))
    decreases |steps|
  {
    if steps != [] {
      OrderedStep(s, steps[0]);
      OrderedRun(Apply(s, steps[0]), steps[1..]);
    }
  }

  /** So in every state reachable from boot. */
  lemma ReachableOrdered(steps: seq<Step>)
    requires NoWrap(Boot(), steps)
    ensures Ordered(Run(Boot(), steps))
  {
    OrderedRun(Boot(), steps);
  }

  /** A fork keeps the order exactly when it fails or the counter is not at its last value. */
  lemma ForkKeepsOrderIff(s: System)
    requires Ordered(s) && s.nextPid < U32_LIMIT
    ensures Ordered(Fork(s).0) <==> !Present(s.table, s.current) || s.nextPid + 1 < U32_LIMIT
  {
    if s.nextPid + 1 < U32_LIMIT {
      OrderedFork(s);
    } else if Present(s.table, s.current) {
      var t := Fork(s).0;
      assert t.nextPid == 0;
      assert t.table[|s.table|].pid == s.nextPid;
    }
  }

  /** `execve` renames the current process to what follows the last slash of the path. */
  lemma {:induction false} BaseNameIs(path: string)
    ensures var name := BaseName(path); var k := |path| - |name|;
      && k >= 0 && path[k..] == name && '/' !in name
      && (k == 0 || path[k - 1] == '/')
    decreases |path|
  {
    if path != [] && path[|path| - 1] != '/' {
      var init := path[..|path| - 1];
      BaseNameIs(init);
      var k := |init| - |BaseName(init)|;
      assert path[k..] == init[k..] + [path[|path| - 1]];
    }
  }

  // ---- one step, seen from a process that is not current ----

  /** All that can happen to `p` while it is not current: more signals, a new parent. */
  predicate Kept(p: Process, q: Process) {
    && q.pid == p.pid && q.name == p.name && q.state == p.state
    && q.exitCode == p.exitCode && q.priority == p.priority && q.kernelRsp == p.kernelRsp
    && (q.parent == p.parent || q.parent == 1)
    && p.pending & q.pending == p.pending
  }

  lemma OrKeepsBits(a: bv32, b: bv32)
    ensures a & (a | b) == a && a & a == a
  {}

  lemma KeptRefl(p: Process)
    ensures Kept(p, p)
  {
    OrKeepsBits(p.pending, 0);
  }

  lemma KeptInExit(s: System, code: int, i: nat)
    requires i < |s.table| && s.table[i].pid != s.current
    ensures |Exit(s, code).table| == |s.table| && Kept(s.table[i], Exit(s, code).table[i])
  {
    var t := Exit(s, code).table;
    assert t[i] == if s.table[i].parent == s.current then s.table[i].(parent := 1) else s.table[i];
    KeptRefl(s.table[i]);
  }

  lemma KeptInKill(s: System, target: nat, sig: bv8, i: nat)
    requires i < |s.table|
    ensures |Kill(s, target, sig).0.table| == |s.table| && Kept(s.table[i], Kill(s, target, sig).0.table[i])
  {
    KeptRefl(s.table[i]);
    if sig <= 31 {
      OrKeepsBits(s.table[i].pending, Bit(sig));
    }
  }

  /** The steps that keep the slots, slot by slot. */
  lemma KeptInSlot(s: System, step: Step, i: nat)
    requires KeepsSlots(step) && i < |s.table| && s.table[i].pid != s.current
    ensures |Apply(s, step).table| == |s.table| && Kept(s.table[i], Apply(s, step).table[i])
  {
    KeptRefl(s.table[i]);
    if step.StepExit? {
      KeptInExit(s, step.code, i);
    } else if step.StepKill? {
      KeptInKill(s, step.pid, step.sig, i);
    }
  }

  /** Whether `step`, taken in `s`, hands `pid` to its waiting parent. */
  predicate Reaps(s: System, step: Step, pid: nat) {
    Reap(s, step).Some? && Reap(s, step).value.0 == pid
  }

  /** A successful `waitpid` takes out one slot, a zombie's, and returns its PID and code. */
  lemma WaitRemoves(s: System, target: Option<nat>)
    requires WaitPid(s, target).1.Reaped?
    ensures var r := FindZombieChild(s.table, s.current, target);
      && r < |s.table| && s.table[r].state == Zombie
      && WaitPid(s, target).0 == s.(table := Without(s.table, r))
      && Reap(s, StepWait(target)) == Some((s.table[r].pid, s.table[r].exitCode))
  {}

  lemma KeptInWait(s: System, target: Option<nat>, pid: nat)
    requires Ordered(s) && Present(s.table, pid)
    ensures var t := WaitPid(s, target).0.table;
      if Reaps(s, StepWait(target), pid)
      then !Present(t, pid) && Get(s.table, pid).state == Zombie
           && Reap(s, StepWait(target)).value.1 == Get(s.table, pid).exitCode
      else Present(t, pid) && Get(t, pid) == Get(s.table, pid)
  {
    if WaitPid(s, target).1.Reaped? {
      WaitRemoves(s, target);
      var r := FindZombieChild(s.table, s.current, target);
      if s.table[r].pid == pid {
        FindAt(s.table, r);
        RemovedIsAbsent(s.table, r, pid);
      } else {
        OthersShift(s.table, r, pid);
      }
    }
  }

  /**
   The frame of every step: a process that is not current keeps its state, exit
   code, name and pending signals, or it is a zombie and its parent collects it
   together with exactly its exit code.
   */
  lemma Frame(s: System, step: Step, pid: nat)
    requires Ordered(s) && Present(s.table, pid) && pid != s.current
    ensures var t := Apply(s, step).table;
      if Reaps(s, step, pid)
      then !Present(t, pid) && Get(s.table, pid).state == Zombie
           && Reap(s, step).value.1 == Get(s.table, pid).exitCode
      else Present(t, pid) && Kept(Get(s.table, pid), Get(t, pid))
  {
    KeptRefl(Get(s.table, pid));
    if step.StepFork? {
      if Present(s.table, s.current) {
        FindAppended(s.table, Child(Get(s.table, s.current), s.nextPid), pid);
      }
    } else if step.StepWait? {
      KeptInWait(s, step.target, pid);
    } else {
      SlotsKept(s, step);
      FindSame(s.table, Apply(s, step).table, pid);
      KeptInSlot(s, step, Find(s.table, pid));
    }
  }

  /** A PID that is gone stays gone: only fresh PIDs enter the table. */
  lemma GoneStep(s: System, step: Step, pid: nat)
    requires Ordered(s) && pid < s.nextPid && !Present(s.table, pid)
    ensures !Present(Apply(s, step).table, pid) && !Reaps(s, step, pid)
  {
    if step.StepFork? {
      if Present(s.table, s.current) {
        FindAppended(s.table, Child(Get(s.table, s.current), s.nextPid), pid);
      }
    } else if step.StepWait? {
      if WaitPid(s, step.target).1.Reaped? {
        var r := FindZombieChild(s.table, s.current, step.target);
        FindAt(s.table, r);
        RemovedIsAbsent(s.table, r, pid);
      }
    } else {
      SlotsKept(s, step);
      FindSame(s.table, Apply(s, step).table, pid);
    }
  }

  /** `current` only ever moves to a ready or running process, or to PID 0 when no process is left. */
  lemma CurrentMoves(s: System, step: Step)
    requires Ordered(s) && Apply(s, step).current != s.current
    ensures var t := Apply(s, step);
      || (t.table == [] && t.current == 0)
      || (Present(t.table, t.current) && Get(t.table, t.current).IsRunnable()
          && (Get(t.table, t.current).state == Ready || Get(t.table, t.current).state == Running))
  {
    SlotsKept(s, step);
    var t := Apply(s, step);
    OrderedSame(s, t);
    if t.table != [] {
      var start := StartSlot(t.table, s.current);
      FindAt(t.table, Slot(t.table, start, Distance(t.table, start, 1)));
    }
  }
}
