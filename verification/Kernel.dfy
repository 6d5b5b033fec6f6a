/**
 The kernel's own form of the process operations: global variables updated in
 place. Every method is proved equal to its function in ProcessTable, so all
 that is proved of runs there holds of runs of this object.
 */
module KernelObject {
  import opened Wrappers
  import opened ProcessTable

  class Kernel {
    var table: seq<Process>
    var current: nat
    var nextPid: nat
    var tick: nat

    ghost function State(): System
      reads this
    {
      System(table, current, nextPid, tick)
    }

    constructor ()
      ensures State() == Boot()
    {
      table := [Process(0, 0, "idle", Running, Idle, 0, 0, 0)];
      nextPid := 1;
      new;
      var init := NewProcess("init", 0);
      table := table + [init];
      tick := 0;
      current := 0;
    }

    method NewProcess(name: string, parent: nat) returns (p: Process)
      modifies this`nextPid
      ensures p == Process(old(nextPid), parent, name, Ready, Normal, 0, 0, 0)
      ensures nextPid == (old(nextPid) + 1) % U32_LIMIT
    {
      var pid := NextPidFetchAdd();
      p := Process(pid, parent, name, Ready, Normal, 0, 0, 0);
    }

    /** The atomic counter hands out its old value and wraps at 32 bits. */
    method NextPidFetchAdd() returns (pid: nat)
      modifies this`nextPid
      ensures pid == old(nextPid) && nextPid == (old(nextPid) + 1) % U32_LIMIT
    {
      pid := nextPid;
      nextPid := (nextPid + 1) % U32_LIMIT;
    }

    method FindSlot(pid: nat) returns (i: nat)
      ensures i == Find(table, pid)
    {
      i := 0;
      while i < |table| && table[i].pid != pid
        invariant i <= |table|
        invariant forall j :: 0 <= j < i ==> table[j].pid != pid
      {
        i := i + 1;
      }
    }

    method Fork() returns (child: Option<nat>)
      modifies this`table, this`nextPid
      ensures (State(), child) == ProcessTable.Fork(old(State()))
    {
      var i := FindSlot(current);
      if i == |table| {
        return None;
      }
      var parent := table[i];
      var pid := NextPidFetchAdd();
      table := table + [Process(pid, parent.pid, parent.name, Ready, parent.priority, parent.kernelRsp, 0, 0)];
      child := Some(pid);
    }

    /** `rsplit('/')`: scan back to the last slash. */
    method LastComponent(path: string) returns (name: string)
      ensures name == BaseName(path)
    {
      var i := |path|;
      name := [];
      assert path[..i] == path;
      while i > 0 && path[i - 1] != '/'
        invariant 0 <= i <= |path|
        invariant BaseName(path) == BaseName(path[..i]) + name
      {
        assert path[..i][..i - 1] == path[..i - 1];
        name := [path[i - 1]] + name;
        i := i - 1;
      }
    }

    method Execve(path: string) returns (ok: bool)
      modifies this`table
      ensures (State(), ok) == ProcessTable.Execve(old(State()), path)
    {
      var i := FindSlot(current);
      if i == |table| {
        return false;
      }
      var name := LastComponent(path);
      table := table[i := table[i].(name := name)];
      table := table[i := table[i].(pending := 0)];
      assert table == old(table)[i := old(table)[i].(name := name, pending := 0)];
      ok := true;
    }

    /** The loop of `exit` that hands the children of `pid` to init. */
    method AdoptChildren(pid: nat)
      modifies this`table
      ensures table == Reparent(old(table), pid)
    {
      ghost var before := table;
      var k := 0;
      while k < |table|
        invariant k <= |table| == |before|
        invariant forall j :: 0 <= j < |table| ==>
                                table[j] == if j < k && before[j].parent == pid then before[j].(parent := 1) else before[j]
      {
        if table[k].parent == pid {
          table := table[k := table[k].(parent := 1)];
        }
        k := k + 1;
      }
    }

    /** The section of `exit` under the lock. */
    method Exit(code: int)
      modifies this`table
      ensures State() == ProcessTable.Exit(old(State()), code)
    {
      var i := FindSlot(current);
      if i < |table| {
        table := table[i := table[i].(state := Zombie)];
        table := table[i := table[i].(exitCode := code)];
        assert table == old(table)[i := old(table)[i].(state := Zombie, exitCode := code)];
      }
      AdoptChildren(current);
    }

    /** One pass of the `waitpid` loop under the lock. */
    method WaitAttempt(target: Option<nat>) returns (r: WaitResult)
      modifies this`table
      ensures (State(), r) == ProcessTable.WaitPid(old(State()), target)
    {
      var hasChild := false;
      var i := 0;
      while i < |table|
        invariant i <= |table|
        invariant hasChild <==> exists j :: 0 <= j < i && IsChild(table[j], current, target)
      {
        hasChild := hasChild || IsChild(table[i], current, target);
        i := i + 1;
      }
      if !hasChild {
        return NoChild;
      }
      i := 0;
      while i < |table| && !(IsChild(table[i], current, target) && table[i].state == Zombie)
        invariant i <= |table|
        invariant forall j :: 0 <= j < i ==> !(IsChild(table[j], current, target) && table[j].state == Zombie)
      {
        i := i + 1;
      }
      if i == |table| {
        return NotYet;
      }
      r := Reaped(table[i].pid, table[i].exitCode);
      table := table[..i] + table[i + 1..];
    }

    method Kill(pid: nat, sig: bv8) returns (r: KillResult)
      modifies this`table
      ensures (State(), r) == ProcessTable.Kill(old(State()), pid, sig)
    {
      if sig > 31 {
        return InvalidSignal;
      }
      var i := FindSlot(pid);
      if i == |table| {
        return NoProcess;
      }
      if sig != 0 {
        table := table[i := table[i].(pending := table[i].pending | Bit(sig))];
      }
      r := Sent;
    }

    method DispatchSignals(pid: nat)
      modifies this`table
      ensures State() == Dispatch(old(State()), pid)
    {
      var i := FindSlot(pid);
      if i == |table| {
        return;
      }
      var pending := table[i].pending;
      if pending == 0 {
        return;
      }
      var sig := TerminatingSignal(pending);
      if sig.Some? {
        table := table[i := table[i].(state := Zombie, exitCode := 128 + sig.value as int, pending := 0)];
        return;
      }
      table := table[i := table[i].(pending := 0)];
    }

    method Schedule()
      modifies this`current
      ensures State() == ProcessTable.Schedule(old(State()))
    {
      var n := |table|;
      if n == 0 {
        current := 0;
        return;
      }
      var start := FindSlot(current);
      if start == n {
        start := 0;
      }
      var i := 1;
      while i <= n
        invariant 1 <= i <= n + 1
        invariant current == old(current) && Distance(table, start, 1) >= i
      {
        var idx := (start + i) % n;
        SlotIsModulo(table, start, i);
        if table[idx].state == Ready || table[idx].state == Running {
          assert RunnableAt(table, start, i);
          current := table[idx].pid;
          return;
        }
        i := i + 1;
      }
    }

    method Tick()
      modifies this
      ensures State() == ProcessTable.Tick(old(State()))
    {
      tick := tick + 1;
      DispatchSignals(current);
      if tick % TIMESLICE == 0 {
        Schedule();
      }
    }

    /** The whole of `exit`: the locked section, then the forced schedule. */
    method ExitAndSchedule(code: int)
      modifies this`table, this`current
      ensures State() == Run(old(State()), [StepExit(code), StepSchedule])
    {
      Exit(code);
      ghost var mid := State();
      Schedule();
      assert [StepExit(code), StepSchedule][1..] == [StepSchedule];
      assert Run(mid, [StepSchedule]) == Run(Apply(mid, StepSchedule), []);
    }

    /** Any sequence of steps on the object is the run of the same steps on its state. */
    method Perform(steps: seq<Step>)
      modifies this
      ensures State() == Run(old(State()), steps)
    {
      var i := 0;
      assert steps[0..] == steps;
      while i < |steps|
        invariant i <= |steps|
        invariant Run(State(), steps[i..]) == Run(old(State()), steps)
      {
        assert steps[i..][1..] == steps[i + 1..];
        match steps[i] {
          case StepFork => var child := Fork();
          case StepExecve(path) => var done := Execve(path);
          case StepExit(code) => Exit(code);
          case StepWait(target) => var r := WaitAttempt(target);
          case StepKill(pid, sig) => var r := Kill(pid, sig);
          case StepTick => Tick();
          case StepSchedule => Schedule();
        }
        i := i + 1;
      }
    }
  }
}
