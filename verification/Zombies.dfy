/**
 Zombies are final: whatever the kernel does after a zombie has lost the
 processor, its exit code reaches its parent at most once and unchanged.
 */
module Zombies {
  import opened Wrappers
  import opened ProcessTable
  import opened ProcessOrder

  predicate IsZombie(s: System, pid: nat) {
    Present(s.table, pid) && Get(s.table, pid).state == Zombie
  }

  /** The exit codes `waitpid` returned for `pid`, in order. */
  function Codes(log: seq<(nat, int)>, pid: nat): seq<int> {
    if log == [] then []
    else (if log[0].0 == pid then [log[0].1] else []) + Codes(log[1..], pid)
  }

  lemma CodesStep(s: System, steps: seq<Step>, pid: nat)
    requires steps != []
    ensures Codes(ReapLog(s, steps), pid)
         == (if Reaps(s, steps[0], pid) then [Reap(s, steps[0]).value.1] else [])
            + Codes(ReapLog(Apply(s, steps[0]), steps[1..]), pid)
  {
    var rest := ReapLog(Apply(s, steps[0]), steps[1..]);
    if Reap(s, steps[0]).Some? {
      var e := Reap(s, steps[0]).value;
      assert ([e] + rest)[1..] == rest;
    }
  }

  /** A zombie or reaped process becomes current exactly when it is PID 0 and an empty table is scheduled. */
  lemma RescheduledIff(s: System, step: Step, pid: nat)
    requires Ordered(s) && pid != s.current && pid < s.nextPid
    requires Present(s.table, pid) ==> IsZombie(s, pid)
    ensures Apply(s, step).current == pid <==> pid == 0 && s.table == [] && Decides(s, step)
  {
    if Apply(s, step).current == pid {
      CurrentMoves(s, step);
      if Present(s.table, pid) {
        Frame(s, step, pid);
      } else {
        GoneStep(s, step, pid);
      }
    }
  }

  lemma {:induction false} GoneRun(s: System, steps: seq<Step>, pid: nat)
    requires Ordered(s) && NoWrap(s, steps)
    requires pid < s.nextPid && !Present(s.table, pid)
    ensures !Present(Run(s, steps).table, pid)
    ensures Codes(ReapLog(s, steps), pid) == []
    ensures pid != 0 && pid != s.current ==> Run(s, steps).current != pid
    decreases |steps|
  {
    if steps != [] {
      OrderedStep(s, steps[0]);
      GoneStep(s, steps[0], pid);
      if pid != s.current {
        RescheduledIff(s, steps[0], pid);
      }
      CodesStep(s, steps, pid);
      GoneRun(Apply(s, steps[0]), steps[1..], pid);
    }
  }

  /**
   Once a zombie is not current: until it is reaped it stays a zombie with the
   same exit code and is never current; it is reaped at most once, and then
   `waitpid` returned exactly that code and the PID stays gone. The PID is
   never current again (for PID 0 while it is in the table: see IdleReturns).
   */
  lemma {:induction false} ZombieIsFinal(s: System, steps: seq<Step>, pid: nat)
    requires Ordered(s) && NoWrap(s, steps)
    requires IsZombie(s, pid) && pid != s.current
    ensures var t := Run(s, steps); var codes := Codes(ReapLog(s, steps), pid);
      || (codes == [] && IsZombie(t, pid) && Get(t.table, pid).exitCode == Get(s.table, pid).exitCode)
      || (codes == [Get(s.table, pid).exitCode] && !Present(t.table, pid))
    ensures Present(Run(s, steps).table, pid) || pid != 0 ==> Run(s, steps).current != pid
    decreases |steps|
  {
    if steps != [] {
      var s1 := Apply(s, steps[0]);
      OrderedStep(s, steps[0]);
      Frame(s, steps[0], pid);
      RescheduledIff(s, steps[0], pid);
      CodesStep(s, steps, pid);
      if Reaps(s, steps[0], pid) {
        GoneRun(s1, steps[1..], pid);
      } else {
        ZombieIsFinal(s1, steps[1..], pid);
      }
    }
  }

  /** No PID is reaped twice, in any run. */
  lemma {:induction false} ReapedOnce(s: System, steps: seq<Step>, pid: nat)
    requires Ordered(s) && NoWrap(s, steps)
    ensures |Codes(ReapLog(s, steps), pid)| <= 1
    decreases |steps|
  {
    if steps != [] {
      var s1 := Apply(s, steps[0]);
      OrderedStep(s, steps[0]);
      CodesStep(s, steps, pid);
      if Reaps(s, steps[0], pid) {
        FindAt(s.table, FindZombieChild(s.table, s.current, steps[0].target));
        KeptInWait(s, steps[0].target, pid);
        GoneRun(s1, steps[1..], pid);
      } else {
        ReapedOnce(s1, steps[1..], pid);
      }
    }
  }

  const ZOMBIE_IDLE: Process := Process(0, 1, "idle", Zombie, Idle, 0, 7, 0)
  const ADOPTED_INIT: Process := Process(1, 1, "init", Ready, Normal, 0, 0, 0)
  const KILLED_INIT: Process := ADOPTED_INIT.(pending := Bit(SIGKILL))

  lemma IdleExits()
    ensures Run(Boot(), [StepExit(7), StepSchedule]) == System([ZOMBIE_IDLE, ADOPTED_INIT], 1, 2, 0)
  {
    var s1 := Apply(Boot(), StepExit(7));
    assert s1.table == [ZOMBIE_IDLE, ADOPTED_INIT];
    assert Distance(s1.table, 0, 1) == 1;
    assert [StepExit(7), StepSchedule][1..] == [StepSchedule];
    assert Run(s1, [StepSchedule]) == Run(Apply(s1, StepSchedule), []);
  }

  lemma InitReapsIdle()
    ensures Apply(System([ZOMBIE_IDLE, ADOPTED_INIT], 1, 2, 0), StepWait(None)) == System([ADOPTED_INIT], 1, 2, 0)
  {
    assert IsChild(ZOMBIE_IDLE, 1, None);
  }

  lemma InitIsKilled()
    ensures var t := Apply(Apply(System([ADOPTED_INIT], 1, 2, 0), StepKill(1, SIGKILL)), StepTick);
      t == System([Deliver(KILLED_INIT)], 1, 2, 1) && Deliver(KILLED_INIT).state == Zombie
  {
    assert Apply(System([ADOPTED_INIT], 1, 2, 0), StepKill(1, SIGKILL)) == System([KILLED_INIT], 1, 2, 0);
  }

  lemma InitReapsItself()
    requires Deliver(KILLED_INIT).state == Zombie
    ensures Apply(System([Deliver(KILLED_INIT)], 1, 2, 1), StepWait(None)) == System([], 1, 2, 1)
  {
    assert IsChild(Deliver(KILLED_INIT), 1, None);
  }

  /** Init reaps idle, is killed, reaps itself and exits. */
  const LAST_STEPS: seq<Step> :=
    [StepWait(None), StepKill(1, SIGKILL), StepTick, StepWait(None), StepExit(0), StepSchedule]

  lemma TableEmpties()
    ensures Run(System([ZOMBIE_IDLE, ADOPTED_INIT], 1, 2, 0), LAST_STEPS).current == 0
  {
    InitReapsIdle();
    InitIsKilled();
    InitReapsItself();
    LastExit();
    RunSix(System([ZOMBIE_IDLE, ADOPTED_INIT], 1, 2, 0), LAST_STEPS);
  }

  lemma LastExit()
    ensures Apply(Apply(System([], 1, 2, 1), StepExit(0)), StepSchedule).current == 0
  {
    assert Apply(System([], 1, 2, 1), StepExit(0)).table == [];
  }

  /**
   The exception for PID 0 is real: after idle exits it is reaped by init, the
   killed init reaps itself, and the schedule of its own `exit`, on an empty
   table, makes 0 current again.
   */
  lemma IdleReturns()
    ensures var s := Run(Boot(), [StepExit(7), StepSchedule]);
      Ordered(s) && IsZombie(s, 0) && s.current != 0 && Run(s, LAST_STEPS).current == 0
  {
    IdleExits();
    TableEmpties();
  }

  lemma RunSix(s: System, steps: seq<Step>)
    requires |steps| == 6
    ensures Run(s, steps)
         == Apply(Apply(Apply(Apply(Apply(Apply(s, steps[0]), steps[1]), steps[2]), steps[3]), steps[4]), steps[5])
  {
    var s1 := Apply(s, steps[0]);
    var s2 := Apply(s1, steps[1]);
    var s3 := Apply(s2, steps[2]);
    var s4 := Apply(s3, steps[3]);
    var s5 := Apply(s4, steps[4]);
    assert Run(s, steps) == Run(s1, steps[1..]);
    assert Run(s1, steps[1..]) == Run(s2, steps[2..]);
    assert Run(s2, steps[2..]) == Run(s3, steps[3..]);
    assert Run(s3, steps[3..]) == Run(s4, steps[4..]);
    assert Run(s4, steps[4..]) == Run(s5, steps[5..]);
  }
}
