/**
 Runs from boot, written out, in which a property fails that one might expect to
 hold, and runs that meet the conditions of the deadlines and of the collection of
 zombies. Every forced schedule in them is that of an `exit`.
 */
module Counterexamples {
  import opened Wrappers
  import opened ProcessTable
  import opened ProcessOrder
  import opened Zombies
  import opened Scheduling
  import opened Rounds
  import opened Signals
  import opened ExitCodes
  import opened Orphans
  import opened Calls

  const IDLE: Process := Process(0, 0, "idle", Running, Idle, 0, 0, 0)
  const INIT: Process := Process(1, 0, "init", Ready, Normal, 0, 0, 0)
  const FORKED: Process := ForkedAs(2)

  function ForkedAs(pid: nat): Process {
    Process(pid, 0, "idle", Ready, Idle, 0, 0, 0)
  }

  // ---- three processes ----

  /** Idle, init and a child of idle, the last PID handed out. */
  function Three(init: Process, child: Process, current: nat, tick: nat): System {
    System([IDLE, init, child], current, child.pid + 1, tick)
  }

  lemma FindInThree(init: Process, child: Process)
    requires init.pid == 1 && child.pid >= 2
    ensures var table := [IDLE, init, child];
      Find(table, 0) == 0 && Find(table, 1) == 1 && Find(table, child.pid) == 2 && Sorted(table)
  {
    FindAt([IDLE, init, child], 0);
    FindAt([IDLE, init, child], 1);
    FindAt([IDLE, init, child], 2);
  }

  /** Who comes after `current` while init can run. */
  function After(child: Process, current: nat): nat {
    if current == 0 then 1 else if current == 1 && child.IsRunnable() then child.pid else 0
  }

  lemma NextInThree(init: Process, child: Process, current: nat)
    requires init.pid == 1 && init.IsRunnable() && child.pid >= 2
    requires current == 0 || current == 1 || current == child.pid
    ensures NextPid([IDLE, init, child], current) == After(child, current)
  {
    var table := [IDLE, init, child];
    FindInThree(init, child);
    var start := Find(table, current);
    var d := Distance(table, start, 1);
    assert RunnableAt(table, start, if start == 1 && !child.IsRunnable() then 2 else 1);
  }

  lemma SliceOfThree(init: Process, child: Process, current: nat, tick: nat)
    requires init.pid == 1 && init.IsRunnable() && child.pid >= 2 && tick % TIMESLICE == 0
    requires current == 0 || current == 1 || current == child.pid
    requires current == 1 ==> init.pending == 0
    requires current == child.pid ==> child.pending == 0
    ensures Run(Three(init, child, current, tick), Clock(10)) == Three(init, child, After(child, current), tick + 10)
  {
    FindInThree(init, child);
    NextInThree(init, child, current);
    SliceRuns(Three(init, child, current, tick), 10);
  }

  // ---- idle forks ----

  /** Idle and init as at boot, later: `pid` is the next PID. */
  function Booted(pid: nat, tick: nat): System {
    System([IDLE, INIT], 0, pid, tick)
  }

  /** Idle forks, and two slices later its child is current. */
  function Forking(): seq<Step> {
    [StepFork] + Clock(10) + Clock(10)
  }

  lemma IdleForks(pid: nat, tick: nat)
    requires 2 <= pid < U32_LIMIT - 1
    ensures Run(Booted(pid, tick), [StepFork]) == Three(INIT, ForkedAs(pid), 0, tick)
  {
    RunOne(Booted(pid, tick), StepFork);
    ModuloSmall(pid + 1, U32_LIMIT);
    assert [IDLE, INIT] + [ForkedAs(pid)] == [IDLE, INIT, ForkedAs(pid)];
  }

  lemma ForkingRunsFrom(pid: nat, tick: nat)
    requires 2 <= pid < U32_LIMIT - 1 && tick % TIMESLICE == 0
    ensures Run(Booted(pid, tick), Forking()) == Three(INIT, ForkedAs(pid), pid, tick + 20)
  {
    var s, child := Booted(pid, tick), ForkedAs(pid);
    IdleForks(pid, tick);
    IdleThenInit(pid, tick);
    InitThenChild(pid, tick + 10) by {
      NextSlices(tick);
    }
    RunThen(s, [StepFork], Three(INIT, child, 0, tick), Clock(10), Three(INIT, child, 1, tick + 10));
    RunThen(s, [StepFork] + Clock(10), Three(INIT, child, 1, tick + 10), Clock(10), Three(INIT, child, pid, tick + 20));
  }

  lemma NextSlices(tick: nat)
    requires tick % TIMESLICE == 0
    ensures (tick + 10) % TIMESLICE == 0 && (tick + 20) % TIMESLICE == 0
  {}

  lemma IdleThenInit(pid: nat, tick: nat)
    requires pid >= 2 && tick % TIMESLICE == 0
    ensures Run(Three(INIT, ForkedAs(pid), 0, tick), Clock(10)) == Three(INIT, ForkedAs(pid), 1, tick + 10)
  {
    SliceOfThree(INIT, ForkedAs(pid), 0, tick);
  }

  lemma InitThenChild(pid: nat, tick: nat)
    requires pid >= 2 && tick % TIMESLICE == 0
    ensures Run(Three(INIT, ForkedAs(pid), 1, tick), Clock(10)) == Three(INIT, ForkedAs(pid), pid, tick + 10)
  {
    SliceOfThree(INIT, ForkedAs(pid), 1, tick);
  }

  lemma ForkingRuns()
    ensures Run(Boot(), Forking()) == Three(INIT, FORKED, 2, 20)
  {
    ForkingRunsFrom(2, 0);
  }

  // ---- the PID counter wraps ----

  /** The child exits, its forced schedule makes idle current, and idle reaps it. */
  function Reaping(): seq<Step> {
    [StepExit(0)] + [StepSchedule] + [StepWait(None)]
  }

  lemma ExitOfChild(pid: nat, tick: nat)
    requires pid >= 2
    ensures var child := ForkedAs(pid);
      Run(Three(INIT, child, pid, tick), [StepExit(0)]) == Three(INIT, child.(state := Zombie), pid, tick)
  {
    var child := ForkedAs(pid);
    FindInThree(INIT, child);
    RunOne(Three(INIT, child, pid, tick), StepExit(0));
    assert Exit(Three(INIT, child, pid, tick), 0).table == [IDLE, INIT, child.(state := Zombie)];
  }

  lemma ScheduleToIdle(pid: nat, tick: nat)
    requires pid >= 2
    ensures var child := ForkedAs(pid).(state := Zombie);
      Run(Three(INIT, child, pid, tick), [StepSchedule]) == Three(INIT, child, 0, tick)
  {
    var child := ForkedAs(pid).(state := Zombie);
    NextInThree(INIT, child, pid);
    RunOne(Three(INIT, child, pid, tick), StepSchedule);
  }

  lemma IdleReaps(pid: nat, tick: nat)
    ensures Run(Three(INIT, ForkedAs(pid).(state := Zombie), 0, tick), [StepWait(None)]) == Booted(pid + 1, tick)
  {
    var child := ForkedAs(pid).(state := Zombie);
    var table := [IDLE, INIT, child];
    assert IsChild(child, 0, None) && child in table;
    assert FindZombieChild(table, 0, None) == 2 by {
      assert table[2] == child && table[0] == IDLE && table[1] == INIT;
    }
    assert table[..2] + table[3..] == [IDLE, INIT];
    RunOne(Three(INIT, child, 0, tick), StepWait(None));
  }

  lemma ReapingRuns(pid: nat, tick: nat)
    requires pid >= 2
    ensures Run(Three(INIT, ForkedAs(pid), pid, tick), Reaping()) == Booted(pid + 1, tick)
  {
    var s, dead := Three(INIT, ForkedAs(pid), pid, tick), ForkedAs(pid).(state := Zombie);
    ExitOfChild(pid, tick);
    ScheduleToIdle(pid, tick);
    IdleReaps(pid, tick);
    RunThen(s, [StepExit(0)], Three(INIT, dead, pid, tick), [StepSchedule], Three(INIT, dead, 0, tick));
    RunThen(s, [StepExit(0)] + [StepSchedule], Three(INIT, dead, 0, tick), [StepWait(None)], Booted(pid + 1, tick));
  }

  /** `n` children, one after the other, are forked, exit and are reaped. */
  function Cycles(n: nat): seq<Step> {
    if n == 0 then [] else Forking() + Reaping() + Cycles(n - 1)
  }

  lemma {:induction false} CyclesRun(n: nat, pid: nat, tick: nat)
    requires 2 <= pid && pid + n < U32_LIMIT && tick % TIMESLICE == 0
    ensures Run(Booted(pid, tick), Cycles(n)) == Booted(pid + n, tick + 20 * n)
    decreases n
  {
    if n > 0 {
      OneCycle(pid, tick);
      NextSlices(tick);
      CyclesRun(n - 1, pid + 1, tick + 20);
      RunThen(Booted(pid, tick), Forking() + Reaping(), Booted(pid + 1, tick + 20), Cycles(n - 1),
              Booted(pid + n, tick + 20 * n));
    }
  }

  lemma OneCycle(pid: nat, tick: nat)
    requires 2 <= pid < U32_LIMIT - 1 && tick % TIMESLICE == 0
    ensures Run(Booted(pid, tick), Forking() + Reaping()) == Booted(pid + 1, tick + 20)
  {
    ForkingRunsFrom(pid, tick);
    ReapingRuns(pid, tick + 20);
    RunThen(Booted(pid, tick), Forking(), Three(INIT, ForkedAs(pid), pid, tick + 20), Reaping(), Booted(pid + 1, tick + 20));
  }

  lemma LastFork(tick: nat)
    ensures var s := Booted(U32_LIMIT - 1, tick); var t := Apply(s, StepFork);
      && t == System([IDLE, INIT, ForkedAs(U32_LIMIT - 1)], 0, 0, tick) && !Ordered(t)
  {
    var s := Booted(U32_LIMIT - 1, tick);
    assert [IDLE, INIT] + [ForkedAs(U32_LIMIT - 1)] == [IDLE, INIT, ForkedAs(U32_LIMIT - 1)];
    ForkKeepsOrderIff(s);
  }

  lemma ForkAfterWrap(tick: nat)
    ensures var t := Apply(System([IDLE, INIT, ForkedAs(U32_LIMIT - 1)], 0, 0, tick), StepFork);
      |t.table| == 4 && t.table[0].pid == 0 && t.table[3].pid == 0
  {}

  /**
   The table does not stay sorted, or PIDs unique, for ever. Forked, exiting and
   reaped one after the other, children use up the PIDs while the table never has
   more than three slots; the fork that takes the last PID ends the order, and the
   next one makes a second process with PID 0.
   */
  lemma PidsWrap()
    ensures var s := Run(Boot(), Cycles(U32_LIMIT - 3));
      && Ordered(s) && |s.table| == 2
      && !Ordered(Run(s, [StepFork]))
      && var t := Run(s, [StepFork] + [StepFork]).table; |t| == 4 && t[0].pid == t[3].pid == 0
  {
    CyclesRun(U32_LIMIT - 3, 2, 0);
    var tick := 20 * (U32_LIMIT - 3);
    var s := Booted(U32_LIMIT - 1, tick);
    LastFork(tick);
    ForkAfterWrap(tick);
    RunOne(s, StepFork);
    RunTwo(s, StepFork, StepFork);
  }

  // ---- the exit code of a killed process ----

  const DEAD: Process := FORKED.(state := Zombie, exitCode := 137)

  lemma ChildIsKilled(tick: nat)
    requires tick % TIMESLICE == 0
    ensures Run(Three(INIT, FORKED, 2, tick), [StepKill(2, SIGKILL)] + [StepTick]) == Three(INIT, DEAD, 2, tick + 1)
  {
    var s, marked := Three(INIT, FORKED, 2, tick), FORKED.(pending := Bit(SIGKILL));
    FindInThree(INIT, FORKED);
    FindInThree(INIT, marked);
    assert 0 | Bit(SIGKILL) == Bit(SIGKILL);
    assert [IDLE, INIT, FORKED][2 := marked] == [IDLE, INIT, marked];
    RunOne(s, StepKill(2, SIGKILL));
    KilledTick(tick);
    RunOne(Three(INIT, marked, 2, tick), StepTick);
    RunThen(s, [StepKill(2, SIGKILL)], Three(INIT, marked, 2, tick), [StepTick], Three(INIT, DEAD, 2, tick + 1));
  }

  lemma KilledTick(tick: nat)
    requires tick % TIMESLICE == 0
    ensures Tick(Three(INIT, FORKED.(pending := Bit(SIGKILL)), 2, tick)) == Three(INIT, DEAD, 2, tick + 1)
  {
    var marked := FORKED.(pending := Bit(SIGKILL));
    FindInThree(INIT, marked);
    assert Deliver(marked) == DEAD;
    assert [IDLE, INIT, marked][2 := DEAD] == [IDLE, INIT, DEAD];
  }

  /**
   The exit code of a killed process is not final while it is current: the child,
   killed inside its slice with code 137, stays current; a SIGTERM then makes the
   code 143, and its own `exit(0)` makes it 0.
   */
  lemma CodeLost()
    ensures var s := Run(Boot(), Forking() + ([StepKill(2, SIGKILL)] + [StepTick]));
      && DiedWith(s, 2, 137) && s.current == 2
      && DiedWith(Run(s, [StepKill(2, SIGTERM)] + [StepTick]), 2, 143)
      && DiedWith(Run(s, [StepExit(0)]), 2, 0)
  {
    var s := Three(INIT, DEAD, 2, 21);
    KillingRuns();
    DeadChild(s);
    TermThenTick(s, 2);
    ExitSetsCode(s, 2, 0);
    RunOne(s, StepExit(0));
  }

  lemma KillingRuns()
    ensures Run(Boot(), Forking() + ([StepKill(2, SIGKILL)] + [StepTick])) == Three(INIT, DEAD, 2, 21)
  {
    ForkingRuns();
    ChildIsKilled(20);
    RunThen(Boot(), Forking(), Three(INIT, FORKED, 2, 20), [StepKill(2, SIGKILL)] + [StepTick], Three(INIT, DEAD, 2, 21));
  }

  lemma DeadChild(s: System)
    requires s == Three(INIT, DEAD, 2, 21)
    ensures Ordered(s) && DiedWith(s, 2, 137) && Get(s.table, 2).pending == 0
  {
    FindInThree(INIT, DEAD);
  }

  lemma TermThenTick(s: System, w: nat)
    requires DiedWith(s, w, 137) && s.current == w && Get(s.table, w).pending == 0
    ensures DiedWith(Run(s, [StepKill(w, SIGTERM)] + [StepTick]), w, 143)
  {
    LaterSignalOverwrites(s, w);
    RunTwo(s, StepKill(w, SIGTERM), StepTick);
  }

  // ---- a forced schedule can pass a killed process over ----

  const KILLED: Process := INIT.(pending := Bit(SIGKILL))
  const EXITED: Process := FORKED.(state := Zombie)

  lemma InitIsMarked()
    ensures Run(Boot(), Forking() + [StepKill(1, SIGKILL)]) == Three(KILLED, FORKED, 2, 20)
  {
    var s := Three(INIT, FORKED, 2, 20);
    ForkingRuns();
    MarkInit(20);
    RunThen(Boot(), Forking(), s, [StepKill(1, SIGKILL)], Three(KILLED, FORKED, 2, 20));
  }

  lemma MarkInit(tick: nat)
    ensures Run(Three(INIT, FORKED, 2, tick), [StepKill(1, SIGKILL)]) == Three(KILLED, FORKED, 2, tick)
  {
    FindInThree(INIT, FORKED);
    assert 0 | Bit(SIGKILL) == Bit(SIGKILL);
    assert [IDLE, INIT, FORKED][1 := KILLED] == [IDLE, KILLED, FORKED];
    RunOne(Three(INIT, FORKED, 2, tick), StepKill(1, SIGKILL));
  }

  /** Two slices pass, then a forced schedule takes the processor from init, then another slice passes. */
  function Evasion(): seq<Step> {
    Clock(10) + Clock(10) + [StepSchedule] + Clock(10)
  }

  lemma TwoSlices()
    ensures Run(Three(KILLED, EXITED, 2, 20), Clock(10) + Clock(10)) == Three(KILLED, EXITED, 1, 40)
  {
    SliceOfThree(KILLED, EXITED, 2, 20);
    SliceOfThree(KILLED, EXITED, 0, 30);
    RunThen(Three(KILLED, EXITED, 2, 20), Clock(10), Three(KILLED, EXITED, 0, 30), Clock(10), Three(KILLED, EXITED, 1, 40));
  }

  lemma InitIsPassed()
    ensures Run(Three(KILLED, EXITED, 1, 40), [StepSchedule]) == Three(KILLED, EXITED, 0, 40)
  {
    NextInThree(KILLED, EXITED, 1);
    RunOne(Three(KILLED, EXITED, 1, 40), StepSchedule);
  }

  lemma EvasionRuns()
    ensures Run(Three(KILLED, EXITED, 2, 20), Evasion()) == Three(KILLED, EXITED, 1, 50)
  {
    var s := Three(KILLED, EXITED, 2, 20);
    TwoSlices();
    InitIsPassed();
    RunThen(s, Clock(10) + Clock(10), Three(KILLED, EXITED, 1, 40), [StepSchedule], Three(KILLED, EXITED, 0, 40));
    SliceOfThree(KILLED, EXITED, 0, 40);
    RunThen(s, Clock(10) + Clock(10) + [StepSchedule], Three(KILLED, EXITED, 0, 40), Clock(10), Three(KILLED, EXITED, 1, 50));
  }

  lemma ChildExits()
    ensures Apply(Three(KILLED, FORKED, 2, 20), StepExit(0)) == Three(KILLED, EXITED, 2, 20)
  {
    FindInThree(KILLED, FORKED);
    assert Exit(Three(KILLED, FORKED, 2, 20), 0).table == [IDLE, KILLED, EXITED];
  }

  lemma {:induction false} ClockCounts(n: nat, rest: seq<Step>, owed: nat)
    ensures Ticks(Clock(n) + rest) == n + Ticks(rest) && Forks(Clock(n) + rest) == Forks(rest)
    ensures Exits(Clock(n) + rest) == Exits(rest) && (Forced(rest, owed) ==> Forced(Clock(n) + rest, owed))
    decreases n
  {
    if n > 0 {
      ClockCounts(n - 1, rest, owed);
      assert (Clock(n) + rest)[1..] == Clock(n - 1) + rest;
    } else {
      assert Clock(0) + rest == rest;
    }
  }

  lemma EvasionCounts()
    ensures Ticks(Evasion()) == 30 && Forks(Evasion()) == 0 && Exits(Evasion()) == 0 && Forced(Evasion(), 1)
  {
    var last := Clock(10) + [];
    var second := [StepSchedule] + last;
    ClockCounts(10, [], 0);
    assert second[1..] == last;
    ClockCounts(10, second, 1);
    ClockCounts(10, Clock(10) + second, 1);
    assert Evasion() == Clock(10) + (Clock(10) + second);
  }

  lemma {:induction false} NoEscape(s: System, steps: seq<Step>, w: nat)
    requires forall step :: step in steps ==> step.StepTick? || step.StepSchedule?
    ensures NeverEscapes(s, steps, w)
    decreases |steps|
  {
    if steps != [] {
      assert steps[0] in steps;
      NoEscape(Apply(s, steps[0]), steps[1..], w);
    }
  }

  lemma {:induction false} ClockIsTicks(n: nat)
    ensures forall step :: step in Clock(n) ==> step == StepTick
  {
    if n > 0 {
      ClockIsTicks(n - 1);
    }
  }

  lemma EvasionSteps()
    ensures forall step :: step in Evasion() ==> step.StepTick? || step.StepSchedule?
  {
    ClockIsTicks(10);
  }

  lemma EvasionIsNoEscape(s: System)
    ensures NeverEscapes(s, [StepExit(0)] + Evasion(), 1) <== s.current != 1
  {
    EvasionSteps();
    assert ([StepExit(0)] + Evasion())[1..] == Evasion();
    NoEscape(Apply(s, StepExit(0)), Evasion(), 1);
  }

  lemma ExitThenEvasion()
    ensures var steps := [StepExit(0)] + Evasion();
      && Ticks(steps) == 30 && Forks(steps) == 0 && Exits(steps) == 1 && Forced(steps, 0)
      && Run(Three(KILLED, FORKED, 2, 20), steps) == Three(KILLED, EXITED, 1, 50)
  {
    assert ([StepExit(0)] + Evasion())[1..] == Evasion();
    EvasionCounts();
    ChildExits();
    EvasionRuns();
  }

  /**
   The factor for the exits in the SIGKILL deadline is needed. In this run every
   forced schedule is that of an `exit`; it passes the killed init over once, and
   init is alive after 30 ticks, although 10 * (n - 1 + f) is 20.
   */
  lemma PassedOver()
    ensures var s, steps := Run(Boot(), Forking() + [StepKill(1, SIGKILL)]), [StepExit(0)] + Evasion();
      && Condemned(s, steps, 1) && Waiting(s, 1) && Forced(steps, 0) && Exits(steps) == 1
      && Ticks(steps) == 30 && TIMESLICE * (|s.table| - 1 + Forks(steps)) == 20
      && Killable(Run(s, steps), 1)
  {
    var s, steps := Three(KILLED, FORKED, 2, 20), [StepExit(0)] + Evasion();
    InitIsMarked();
    ExitThenEvasion();
    FindInThree(KILLED, FORKED);
    FindInThree(KILLED, EXITED);
    EvasionIsNoEscape(s);
    IdleLivesIff(s, steps);
  }

  // ---- a run to which the deadlines apply ----

  /** Two slices and a tick: enough for the killed init to be found current. */
  function Waited(): seq<Step> {
    Clock(10) + Clock(10) + [StepTick]
  }

  lemma WaitedRuns()
    ensures Run(Three(KILLED, FORKED, 2, 20), Waited()) == Tick(Three(KILLED, FORKED, 1, 40))
  {
    var s := Three(KILLED, FORKED, 2, 20);
    SliceOfThree(KILLED, FORKED, 2, 20);
    SliceOfThree(KILLED, FORKED, 0, 30);
    RunThen(s, Clock(10), Three(KILLED, FORKED, 0, 30), Clock(10), Three(KILLED, FORKED, 1, 40));
    RunOne(Three(KILLED, FORKED, 1, 40), StepTick);
    RunThen(s, Clock(10) + Clock(10), Three(KILLED, FORKED, 1, 40), [StepTick], Tick(Three(KILLED, FORKED, 1, 40)));
  }

  lemma WaitedCounts()
    ensures Ticks(Waited()) == 21 && Forks(Waited()) == 0 && Exits(Waited()) == 0 && Forced(Waited(), 0)
    ensures forall step :: step in Waited() ==> step.StepTick? || step.StepSchedule?
  {
    ClockCounts(10, [StepTick], 0);
    ClockCounts(10, Clock(10) + [StepTick], 0);
    assert Waited() == Clock(10) + (Clock(10) + [StepTick]);
    ClockIsTicks(10);
  }

  lemma MarkedInit(s: System)
    requires s == Three(KILLED, FORKED, 2, 20)
    ensures Live(s) && Killable(s, 1) && Waiting(s, 1) && |s.table| == 3
  {
    FindInThree(KILLED, FORKED);
  }

  lemma IdleAtEnd(t: System)
    requires t == Three(KILLED, FORKED, 1, 40)
    ensures IdleAlive(Tick(t))
  {
    FindInThree(KILLED, FORKED);
    Frame(t, StepTick, 0);
  }

  lemma IsCondemned(s: System, steps: seq<Step>)
    requires s == Three(KILLED, FORKED, 2, 20) && steps == Waited()
    ensures Condemned(s, steps, 1)
  {
    MarkedInit(s);
    WaitedCounts();
    WaitedRuns();
    IdleAtEnd(Three(KILLED, FORKED, 1, 40));
    IdleLivesIff(s, steps);
    NoEscape(s, steps, 1);
  }

  lemma NoPasses(s: System, steps: seq<Step>)
    requires steps == Waited()
    ensures Passes(s, steps, 1) == 0 && Ticks(steps) == 21 && Forks(steps) == 0 && Exits(steps) == 0 && Forced(steps, 0)
  {
    WaitedCounts();
    PassesBound(s, steps, 1, 0);
  }

  /** The conditions of the deadline for SIGKILL and of bounded waiting can be met, by a run from boot. */
  lemma DeadlineApplies(s: System, steps: seq<Step>)
    requires s == Run(Boot(), Forking() + [StepKill(1, SIGKILL)]) && steps == Waited()
    ensures Condemned(s, steps, 1) && Waiting(s, 1) && Forced(steps, 0)
    ensures Ticks(steps) > TIMESLICE * (Laps(s, steps, 1) * (|s.table| - 1 + Forks(steps)))
    ensures Ticks(steps) > TIMESLICE * ((0 + Exits(steps) + 1) * (|s.table| - 1 + Forks(steps)))
    ensures Ticks(steps) >= TIMESLICE * (|s.table| - 1 + Forks(steps))
  {
    InitIsMarked();
    IsCondemned(s, steps);
    MarkedInit(s);
    NoPasses(s, steps);
  }

  // ---- a run to which the collection of zombies applies ----

  /** Ticks of a calm slice kill nobody. */
  lemma {:induction false} SliceDies(s: System, n: nat)
    requires Calm(s) && n > 0 && s.tick % TIMESLICE + n == TIMESLICE
    ensures DiesByExit(s, Clock(n), {})
    decreases n
  {
    assert TerminatingSignal(0) == None;
    TickAdvances(s.tick, n);
    assert Clock(n)[1..] == Clock(n - 1);
    if n > 1 {
      QuietTick(s);
      SliceDies(s.(tick := s.tick + 1), n - 1);
    }
  }

  lemma {:induction false} DiesThen(s: System, a: seq<Step>, b: seq<Step>)
    requires DiesByExit(s, a, {}) && DiesByExit(Run(s, a), b, {})
    requires forall step :: step in a ==> !step.StepExit?
    ensures DiesByExit(s, a + b, {})
    decreases |a|
  {
    if a == [] {
      assert a + b == b;
    } else {
      assert a[0] in a && (a + b)[1..] == a[1..] + b;
      DiesThen(Apply(s, a[0]), a[1..], b);
    }
  }

  lemma ForkDies()
    ensures DiesByExit(Boot(), [StepFork], {})
  {
    assert [StepFork][1..] == [];
  }

  lemma ExitDies(s: System)
    requires s.current == 2
    ensures DiesByExit(s, [StepExit(0)] + [StepSchedule], {})
  {
    assert ([StepExit(0)] + [StepSchedule])[1..] == [StepSchedule];
    assert [StepSchedule][1..] == [];
  }

  lemma ForkingDies()
    ensures DiesByExit(Boot(), Forking(), {})
  {
    var s0, s1 := Three(INIT, FORKED, 0, 0), Three(INIT, FORKED, 1, 10);
    IdleForks(2, 0);
    IdleThenInit(2, 0);
    RunThen(Boot(), [StepFork], s0, Clock(10), s1);
    FindInThree(INIT, FORKED);
    SliceDies(s0, 10);
    SliceDies(s1, 10);
    ForkDies();
    ClockIsTicks(10);
    DiesThen(Boot(), [StepFork], Clock(10));
    DiesThen(Boot(), [StepFork] + Clock(10), Clock(10));
  }

  /** The child of idle runs and exits, with its forced schedule. */
  function Exiting(): seq<Step> {
    Forking() + ([StepExit(0)] + [StepSchedule])
  }

  lemma ExitingRuns()
    ensures Run(Boot(), Exiting()) == Three(INIT, EXITED, 0, 20)
  {
    ForkingRuns();
    ExitOfChild(2, 20);
    ScheduleToIdle(2, 20);
    RunThen(Three(INIT, FORKED, 2, 20), [StepExit(0)], Three(INIT, EXITED, 2, 20), [StepSchedule], Three(INIT, EXITED, 0, 20));
    RunThen(Boot(), Forking(), Three(INIT, FORKED, 2, 20), [StepExit(0)] + [StepSchedule], Three(INIT, EXITED, 0, 20));
  }

  lemma ExitingDies()
    ensures DiesByExit(Boot(), Exiting(), {})
  {
    ForkingRuns();
    ForkingDies();
    ForkingSteps();
    ThenExits(Boot(), Forking());
  }

  lemma ForkingSteps()
    ensures forall step :: step in Forking() ==> !step.StepExit?
  {
    ClockIsTicks(10);
  }

  lemma ThenExits(s: System, a: seq<Step>)
    requires DiesByExit(s, a, {}) && Run(s, a).current == 2
    requires forall step :: step in a ==> !step.StepExit?
    ensures DiesByExit(s, a + ([StepExit(0)] + [StepSchedule]), {})
  {
    ExitDies(Run(s, a));
    DiesThen(s, a, [StepExit(0)] + [StepSchedule]);
  }

  lemma ExitingForks()
    ensures Forks(Exiting()) == 1
  {
    var end := [StepExit(0)] + [StepSchedule];
    assert end[1..] == [StepSchedule] && [StepSchedule][1..] == [];
    ClockCounts(10, end, 0);
    ClockCounts(10, Clock(10) + end, 0);
    assert Exiting() == [StepFork] + (Clock(10) + (Clock(10) + end));
    assert Exiting()[1..] == Clock(10) + (Clock(10) + end);
  }

  /** Two slices after the exit. */
  function Later(): seq<Step> {
    Clock(10) + Clock(10)
  }

  lemma LaterRuns()
    ensures Run(Three(INIT, EXITED, 0, 20), Later()) == Three(INIT, EXITED, 0, 40)
  {
    SliceOfThree(INIT, EXITED, 0, 20);
    SliceOfThree(INIT, EXITED, 1, 30);
    RunThen(Three(INIT, EXITED, 0, 20), Clock(10), Three(INIT, EXITED, 1, 30), Clock(10), Three(INIT, EXITED, 0, 40));
  }

  lemma LaterCounts()
    ensures Ticks(Later()) == 20 && Forks(Later()) == 0
  {
    ClockCounts(10, [], 0);
    ClockCounts(10, Clock(10), 0);
    assert Clock(10) + [] == Clock(10);
  }

  lemma LaterDecides(s: System, more: seq<Step>)
    requires s == Three(INIT, EXITED, 0, 20) && more == Later()
    ensures NoWrap(s, more) && IdleLives(s, more) && Decisions(s, more) >= |s.table| - 1 + Forks(more)
  {
    FindInThree(INIT, EXITED);
    LaterRuns();
    LaterCounts();
    IdleLivesIff(s, more);
    TicksDecide(s, more);
  }

  /** The conditions of CollectedInTime can be met. */
  lemma CollectionApplies(s: System, more: seq<Step>)
    requires s == Run(Boot(), Exiting()) && more == Later()
    ensures DiesByExit(Boot(), Exiting(), {}) && NoWrap(Boot(), Exiting())
    ensures IsZombie(s, 2) && s.current != 2 && NoWrap(s, more) && IdleLives(s, more)
    ensures Decisions(s, more) >= |s.table| - 1 + Forks(more)
  {
    ExitingRuns();
    ExitingDies();
    ExitingForks();
    FindInThree(INIT, EXITED);
    LaterDecides(s, more);
  }

  // ---- a run to which the collection of a forked child applies ----

  lemma {:induction false} NoExits(s: System, steps: seq<Step>, pid: nat)
    requires forall step :: step in steps ==> !step.StepExit?
    ensures NeverExits(s, steps, pid)
    decreases |steps|
  {
    if steps != [] {
      assert steps[0] in steps;
      NoExits(Apply(s, steps[0]), steps[1..], pid);
    }
  }

  lemma ChildIsCurrent()
    ensures Run(Fork(Boot()).0, Later()) == Three(INIT, FORKED, 2, 20)
  {
    IdleForks(2, 0);
    RunOne(Boot(), StepFork);
    IdleThenInit(2, 0);
    InitThenChild(2, 10);
    RunThen(Three(INIT, FORKED, 0, 0), Clock(10), Three(INIT, FORKED, 1, 10), Clock(10), Three(INIT, FORKED, 2, 20));
  }

  lemma ScheduleLeavesAlone(v: System)
    requires v == Three(INIT, EXITED, 2, 20)
    ensures LeftAlone(v, [StepSchedule], 2)
  {
    FindInThree(INIT, EXITED);
    assert [StepSchedule][1..] == [];
    assert LeftAlone(Apply(v, StepSchedule), [], 2);
  }

  /** The conditions of ForkedChildIsCollected can be met: idle forks, and the child runs and exits. */
  lemma ForkApplies(t: System, u: System, v: System)
    requires t == Fork(Boot()).0 && u == Run(t, Later()) && v == Exit(u, 0)
    ensures Fork(Boot()).1 == Some(2) && u.current == 2 && Present(u.table, 2)
    ensures NeverExits(t, Later(), 0) && NeverExits(v, [StepSchedule], 0)
    ensures LeftAlone(v, [StepSchedule], 2) && Run(v, [StepSchedule]).current == 0
  {
    ChildIsCurrent();
    FindInThree(INIT, FORKED);
    ExitOfChild(2, 20);
    RunOne(u, StepExit(0));
    ScheduleToIdle(2, 20);
    ScheduleLeavesAlone(v);
    ClockIsTicks(10);
    NoExits(t, Later(), 0);
    NoExits(v, [StepSchedule], 0);
  }

  // ---- death by signal strands the children ----

  const GRANDCHILD: Process := Process(3, 2, "idle", Ready, Idle, 0, 0, 0)

  /** The child forks, is killed by a signal, and its slice ends. */
  function Stranding(): seq<Step> {
    [StepFork] + [StepKill(2, SIGKILL)] + [StepTick] + Clock(9)
  }

  function Four(child: Process, current: nat, tick: nat): System {
    System([IDLE, INIT, child, GRANDCHILD], current, 4, tick)
  }

  lemma FindInFour(child: Process)
    requires child.pid == 2
    ensures var table := [IDLE, INIT, child, GRANDCHILD];
      Sorted(table) && Find(table, 2) == 2 && Find(table, 3) == 3
  {
    FindAt([IDLE, INIT, child, GRANDCHILD], 2);
    FindAt([IDLE, INIT, child, GRANDCHILD], 3);
  }

  lemma ChildForks()
    ensures Run(Three(INIT, FORKED, 2, 20), [StepFork]) == Four(FORKED, 2, 20)
  {
    FindInThree(INIT, FORKED);
    RunOne(Three(INIT, FORKED, 2, 20), StepFork);
  }

  lemma ForkerIsMarked()
    ensures Run(Four(FORKED, 2, 20), [StepKill(2, SIGKILL)]) == Four(FORKED.(pending := Bit(SIGKILL)), 2, 20)
  {
    var marked := FORKED.(pending := Bit(SIGKILL));
    FindInFour(FORKED);
    assert 0 | Bit(SIGKILL) == Bit(SIGKILL);
    assert [IDLE, INIT, FORKED, GRANDCHILD][2 := marked] == [IDLE, INIT, marked, GRANDCHILD];
    RunOne(Four(FORKED, 2, 20), StepKill(2, SIGKILL));
  }

  lemma ForkerDies()
    ensures Run(Four(FORKED.(pending := Bit(SIGKILL)), 2, 20), [StepTick]) == Four(DEAD, 2, 21)
  {
    var marked := FORKED.(pending := Bit(SIGKILL));
    FindInFour(marked);
    assert Deliver(marked) == DEAD;
    assert [IDLE, INIT, marked, GRANDCHILD][2 := DEAD] == [IDLE, INIT, DEAD, GRANDCHILD];
    RunOne(Four(marked, 2, 20), StepTick);
  }

  lemma SliceEndsAfterDeath()
    ensures Run(Four(DEAD, 2, 21), Clock(9)) == Four(DEAD, 3, 30)
  {
    FindInFour(DEAD);
    SliceRuns(Four(DEAD, 2, 21), 9);
    assert RunnableAt(Four(DEAD, 2, 30).table, 2, 1);
  }

  lemma StrandingRuns()
    ensures Run(Boot(), Forking() + Stranding()) == Four(DEAD, 3, 30)
  {
    var s, marked := Three(INIT, FORKED, 2, 20), FORKED.(pending := Bit(SIGKILL));
    ForkingRuns();
    ChildForks();
    ForkerIsMarked();
    RunThen(s, [StepFork], Four(FORKED, 2, 20), [StepKill(2, SIGKILL)], Four(marked, 2, 20));
    ForkerDies();
    RunThen(s, [StepFork] + [StepKill(2, SIGKILL)], Four(marked, 2, 20), [StepTick], Four(DEAD, 2, 21));
    SliceEndsAfterDeath();
    RunThen(s, [StepFork] + [StepKill(2, SIGKILL)] + [StepTick], Four(DEAD, 2, 21), Clock(9), Four(DEAD, 3, 30));
    RunThen(Boot(), Forking(), s, Stranding(), Four(DEAD, 3, 30));
  }

  /**
   A signal kills a process with a child: the child is left with a dead parent, and
   whatever happens afterwards it is never collected.
   */
  lemma ChildStranded(more: seq<Step>)
    ensures var s := Run(Boot(), Forking() + Stranding());
      && IsZombie(s, 2) && Present(s.table, 3) && !HasParent(s, 3)
      && (NoWrap(s, more) ==> Present(Run(s, more).table, 3) && Codes(ReapLog(s, more), 3) == [])
  {
    var s := Four(DEAD, 3, 30);
    StrandingRuns();
    FindInFour(DEAD);
    if NoWrap(s, more) {
      StrandedForever(s, more, 3);
    }
  }

  // ---- so does a fork by a dead process ----

  lemma DeadChildForks()
    ensures Run(Three(INIT, DEAD, 2, 21), [StepFork]) == Four(DEAD, 2, 21)
  {
    FindInThree(INIT, DEAD);
    RunOne(Three(INIT, DEAD, 2, 21), StepFork);
    assert [IDLE, INIT, DEAD] + [GRANDCHILD] == [IDLE, INIT, DEAD, GRANDCHILD];
  }

  lemma DeadForkingRuns()
    ensures Run(Boot(), Forking() + ([StepKill(2, SIGKILL)] + [StepTick]) + [StepFork] + Clock(9)) == Four(DEAD, 3, 30)
  {
    var before := Forking() + ([StepKill(2, SIGKILL)] + [StepTick]);
    KillingRuns();
    DeadChildForks();
    SliceEndsAfterDeath();
    RunThen(Boot(), before, Three(INIT, DEAD, 2, 21), [StepFork], Four(DEAD, 2, 21));
    RunThen(Boot(), before + [StepFork], Four(DEAD, 2, 21), Clock(9), Four(DEAD, 3, 30));
  }

  /** A process killed inside its slice is still current and forks: its child is never collected. */
  lemma BornStranded(more: seq<Step>)
    ensures var s := Run(Boot(), Forking() + ([StepKill(2, SIGKILL)] + [StepTick]) + [StepFork] + Clock(9));
      && IsZombie(s, 2) && Present(s.table, 3) && !HasParent(s, 3)
      && (NoWrap(s, more) ==> Present(Run(s, more).table, 3) && Codes(ReapLog(s, more), 3) == [])
  {
    DeadForkingRuns();
    StrandingRuns();
    ChildStranded(more);
  }

  // ---- and so does an exit of init ----

  const INITS_CHILD: Process := Process(2, 1, "init", Ready, Normal, 0, 0, 0)
  const EXITED_INIT: Process := INIT.(state := Zombie)

  lemma InitForks()
    ensures Run(Boot(), Clock(10) + [StepFork]) == Three(INIT, INITS_CHILD, 1, 10)
  {
    var s := Booted(2, 0).(current := 1, tick := 10);
    SliceRuns(Boot(), 10);
    assert RunnableAt(Boot().table, 0, 1);
    assert Find(s.table, 1) == 1;
    RunOne(s, StepFork);
    assert [IDLE, INIT] + [INITS_CHILD] == [IDLE, INIT, INITS_CHILD];
    RunThen(Boot(), Clock(10), s, [StepFork], Three(INIT, INITS_CHILD, 1, 10));
  }

  lemma InitDies()
    ensures Run(Three(INIT, INITS_CHILD, 1, 10), [StepExit(0)]) == Three(EXITED_INIT, INITS_CHILD, 1, 10)
  {
    var s := Three(INIT, INITS_CHILD, 1, 10);
    FindInThree(INIT, INITS_CHILD);
    assert Exit(s, 0).table == [IDLE, EXITED_INIT, INITS_CHILD];
    RunOne(s, StepExit(0));
  }

  lemma InitIsLeft()
    ensures Run(Three(EXITED_INIT, INITS_CHILD, 1, 10), [StepSchedule]) == Three(EXITED_INIT, INITS_CHILD, 2, 10)
  {
    var s := Three(EXITED_INIT, INITS_CHILD, 1, 10);
    FindInThree(EXITED_INIT, INITS_CHILD);
    assert RunnableAt(s.table, 1, 1);
    RunOne(s, StepSchedule);
  }

  lemma InitExitRuns()
    ensures Run(Boot(), Clock(10) + [StepFork] + [StepExit(0)] + [StepSchedule]) == Three(EXITED_INIT, INITS_CHILD, 2, 10)
  {
    var before := Clock(10) + [StepFork];
    InitForks();
    InitDies();
    InitIsLeft();
    RunThen(Boot(), before, Three(INIT, INITS_CHILD, 1, 10), [StepExit(0)], Three(EXITED_INIT, INITS_CHILD, 1, 10));
    RunThen(Boot(), before + [StepExit(0)], Three(EXITED_INIT, INITS_CHILD, 1, 10), [StepSchedule],
            Three(EXITED_INIT, INITS_CHILD, 2, 10));
  }

  /** Init exits and hands its child to PID 1, itself: the child is never collected. */
  lemma InitStrandsChild(more: seq<Step>)
    ensures var s := Run(Boot(), Clock(10) + [StepFork] + [StepExit(0)] + [StepSchedule]);
      && IsZombie(s, 1) && Present(s.table, 2) && !HasParent(s, 2)
      && (NoWrap(s, more) ==> Present(Run(s, more).table, 2) && Codes(ReapLog(s, more), 2) == [])
  {
    var s := Three(EXITED_INIT, INITS_CHILD, 2, 10);
    InitExitRuns();
    FindInThree(EXITED_INIT, INITS_CHILD);
    if NoWrap(s, more) {
      StrandedForever(s, more, 2);
    }
  }
}
