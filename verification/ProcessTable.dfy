/**
 The process table, the scheduler variables and the atomic steps of the kernel
 on them (process/mod.rs, process/scheduler.rs, process/signal.rs).

 Every section the kernel runs under the table lock is one function from state
 to state. `Kernel.dfy` holds the same operations in the imperative form of the
 source, proved equal to these.
 */
module ProcessTable {
  import opened Wrappers

  datatype ProcessState = Ready | Running | Blocked | Zombie

  datatype Priority = Idle | Low | Normal | High | RealTime

  datatype Process = Process(
    pid: nat,
    parent: nat,
    name: string,
    state: ProcessState,
    priority: Priority,
    kernelRsp: bv64,
    exitCode: int,
    pending: bv32)
  {
    predicate IsRunnable() {
      state == Ready || state == Running
    }
  }

  /** PROCESS_TABLE, CURRENT_PID, NEXT_PID and TICK. */
  datatype System = System(table: seq<Process>, current: nat, nextPid: nat, tick: nat)

  const TIMESLICE: nat := 10

  const SIGINT: bv8 := 2
  const SIGQUIT: bv8 := 3
  const SIGKILL: bv8 := 9
  const SIGTERM: bv8 := 15

  function Bit(sig: bv8): bv32
    requires sig <= 31
  {
    (1 as bv32) << sig
  }

  predicate HasSignal(pending: bv32, sig: bv8)
    requires sig <= 31
  {
    pending & Bit(sig) != 0
  }

  /** The signal whose default action terminates, by the kernel's priority. */
  function TerminatingSignal(pending: bv32): Option<bv8> {
    if HasSignal(pending, SIGKILL) then Some(SIGKILL)
    else if HasSignal(pending, SIGTERM) then Some(SIGTERM)
    else if HasSignal(pending, SIGINT) then Some(SIGINT)
    else if HasSignal(pending, SIGQUIT) then Some(SIGQUIT)
    else None
  }

  /** The first slot holding `pid`, or the table length if there is none. */
  function Find(table: seq<Process>, pid: nat): (i: nat)
    ensures i <= |table|
    ensures i < |table| ==> table[i].pid == pid
    ensures forall j :: 0 <= j < i ==> table[j].pid != pid
  {
    if table == [] || table[0].pid == pid then 0 else 1 + Find(table[1..], pid)
  }

  predicate Present(table: seq<Process>, pid: nat) {
    Find(table, pid) < |table|
  }

  function Get(table: seq<Process>, pid: nat): (p: Process)
    requires Present(table, pid)
    ensures p.pid == pid && p in table
  {
    table[Find(table, pid)]
  }

  function Boot(): System {
    System([Process(0, 0, "idle", Running, Idle, 0, 0, 0),
            Process(1, 0, "init", Ready, Normal, 0, 0, 0)], 0, 2, 0)
  }

  // ---- fork, execve, exit, waitpid ----

  function Child(parent: Process, pid: nat): Process {
    Process(pid, parent.pid, parent.name, Ready, parent.priority, parent.kernelRsp, 0, 0)
  }

  /** NEXT_PID is a 32-bit counter and wraps. */
  function Fork(s: System): (System, Option<nat>) {
    if !Present(s.table, s.current) then (s, None)
    else
      var child := Child(Get(s.table, s.current), s.nextPid);
      (s.(table := s.table + [child], nextPid := (s.nextPid + 1) % U32_LIMIT), Some(child.pid))
  }

  /** What follows the last slash. */
  function BaseName(path: string): string
    decreases |path|
  {
    if path == [] then []
    else if path[|path| - 1] == '/' then []
    else BaseName(path[..|path| - 1]) + [path[|path| - 1]]
  }

  function Execve(s: System, path: string): (System, bool) {
    var i := Find(s.table, s.current);
    if i == |s.table| then (s, false)
    else (s.(table := s.table[i := s.table[i].(name := BaseName(path), pending := 0)]), true)
  }

  function Reparent(table: seq<Process>, pid: nat): (r: seq<Process>)
    ensures |r| == |table|
    ensures forall i :: 0 <= i < |table| ==>
                          r[i] == if table[i].parent == pid then table[i].(parent := 1) else table[i]
  {
    if table == [] then []
    else [if table[0].parent == pid then table[0].(parent := 1) else table[0]] + Reparent(table[1..], pid)
  }

  /** The locked section of `exit`; the forced schedule is a step of its own. */
  function Exit(s: System, code: int): System {
    var i := Find(s.table, s.current);
    var marked := if i == |s.table| then s.table
                  else s.table[i := s.table[i].(state := Zombie, exitCode := code)];
    s.(table := Reparent(marked, s.current))
  }

  datatype WaitResult = NoChild | NotYet | Reaped(pid: nat, code: int)

  predicate IsChild(p: Process, parent: nat, target: Option<nat>) {
    p.parent == parent && (target.Some? ==> p.pid == target.value)
  }

  /** The first slot holding a zombie child of `parent` that matches `target`. */
  function FindZombieChild(table: seq<Process>, parent: nat, target: Option<nat>): (i: nat)
    ensures i <= |table|
    ensures i < |table| ==> IsChild(table[i], parent, target) && table[i].state == Zombie
    ensures forall j :: 0 <= j < i ==> !(IsChild(table[j], parent, target) && table[j].state == Zombie)
  {
    if table == [] || (IsChild(table[0], parent, target) && table[0].state == Zombie) then 0
    else 1 + FindZombieChild(table[1..], parent, target)
  }

  /** One pass of the `waitpid` loop. */
  function WaitPid(s: System, target: Option<nat>): (System, WaitResult) {
    if forall p | p in s.table :: !IsChild(p, s.current, target) then (s, NoChild)
    else
      var i := FindZombieChild(s.table, s.current, target);
      if i == |s.table| then (s, NotYet)
      else (s.(table := s.table[..i] + s.table[i + 1..]), Reaped(s.table[i].pid, s.table[i].exitCode))
  }

  // ---- signals ----

  datatype KillResult = Sent | InvalidSignal | NoProcess

  function Kill(s: System, pid: nat, sig: bv8): (System, KillResult) {
    if sig > 31 then (s, InvalidSignal)
    else
      var i := Find(s.table, pid);
      if i == |s.table| then (s, NoProcess)
      else if sig == 0 then (s, Sent)
      else (s.(table := s.table[i := s.table[i].(pending := s.table[i].pending | Bit(sig))]), Sent)
  }

  /** The default action of the pending signals of one process. */
  function Deliver(p: Process): Process {
    match TerminatingSignal(p.pending)
    case Some(sig) => p.(state := Zombie, exitCode := 128 + sig as int, pending := 0)
    case None => p.(pending := 0)
  }

  function Dispatch(s: System, pid: nat): System {
    var i := Find(s.table, pid);
    if i == |s.table| || s.table[i].pending == 0 then s
    else s.(table := s.table[i := Deliver(s.table[i])])
  }

  // ---- the scheduler ----

  /** The slot the search starts after: that of the current process, or slot 0. */
  function StartSlot(table: seq<Process>, current: nat): (i: nat)
    requires table != []
    ensures i < |table|
  {
    if Present(table, current) then Find(table, current) else 0
  }

  /** The slot `j` places after `start` on the ring of slots; see SlotIsModulo. */
  function Slot(table: seq<Process>, start: nat, j: nat): (i: nat)
    requires start < |table| && j <= |table|
    ensures i < |table|
  {
    if start + j < |table| then start + j else start + j - |table|
  }

  lemma SlotIsModulo(table: seq<Process>, start: nat, j: nat)
    requires start < |table| && j <= |table|
    ensures Slot(table, start, j) == (start + j) % |table|
  {
    if start + j < |table| {
      ModuloSmall(start + j, |table|);
    } else {
      ModuloWrapped(start + j, |table|);
    }
  }

  lemma ModuloSmall(x: nat, n: nat)
    requires x < n
    ensures x % n == x
  {}

  lemma ModuloWrapped(x: nat, n: nat)
    requires 0 < n <= x < 2 * n
    ensures x % n == x - n
  {
    assert x == n * 1 + (x - n);
  }

  predicate RunnableAt(table: seq<Process>, start: nat, j: nat)
    requires start < |table| && j <= |table|
  {
    table[Slot(table, start, j)].IsRunnable()
  }

  /** The least distance from `i` on at which a runnable slot follows `start`, or |table| + 1. */
  function Distance(table: seq<Process>, start: nat, i: nat): (d: nat)
    requires start < |table| && 1 <= i <= |table| + 1
    ensures i <= d <= |table| + 1
    ensures d <= |table| ==> RunnableAt(table, start, d)
    ensures forall j :: i <= j < d ==> !RunnableAt(table, start, j)
    decreases |table| + 1 - i
  {
    if i == |table| + 1 || RunnableAt(table, start, i) then i
    else Distance(table, start, i + 1)
  }

  function NextPid(table: seq<Process>, current: nat): nat {
    if table == [] then 0
    else
      var start := StartSlot(table, current);
      var d := Distance(table, start, 1);
      if d == |table| + 1 then current else table[Slot(table, start, d)].pid
  }

  function Schedule(s: System): System {
    s.(current := NextPid(s.table, s.current))
  }

  predicate SliceEnds(s: System) {
    (s.tick + 1) % TIMESLICE == 0
  }

  function Tick(s: System): System {
    var s1 := Dispatch(s.(tick := s.tick + 1), s.current);
    if SliceEnds(s) then Schedule(s1) else s1
  }

  // ---- runs ----

  datatype Step =
    | StepFork
    | StepExecve(path: string)
    | StepExit(code: int)
    | StepWait(target: Option<nat>)
    | StepKill(pid: nat, sig: bv8)
    | StepTick
    | StepSchedule

  function Apply(s: System, step: Step): System {
    match step
    case StepFork => Fork(s).0
    case StepExecve(path) => Execve(s, path).0
    case StepExit(code) => Exit(s, code)
    case StepWait(target) => WaitPid(s, target).0
    case StepKill(pid, sig) => Kill(s, pid, sig).0
    case StepTick => Tick(s)
    case StepSchedule => Schedule(s)
  }

  function Run(s: System, steps: seq<Step>): System
    decreases |steps|
  {
    if steps == [] then s else Run(Apply(s, steps[0]), steps[1..])
  }

  /** What a step takes out of the table, as its caller sees it. */
  function Reap(s: System, step: Step): Option<(nat, int)> {
    if step.StepWait? && WaitPid(s, step.target).1.Reaped?
    then var r := WaitPid(s, step.target).1; Some((r.pid, r.code))
    else None
  }

  /** Everything `waitpid` returned in a run, in order. */
  function ReapLog(s: System, steps: seq<Step>): seq<(nat, int)>
    decreases |steps|
  {
    if steps == [] then []
    else
      var rest := ReapLog(Apply(s, steps[0]), steps[1..]);
      if Reap(s, steps[0]).Some? then [Reap(s, steps[0]).value] + rest else rest
  }

  function Forks(steps: seq<Step>): nat {
    if steps == [] then 0 else (if steps[0].StepFork? then 1 else 0) + Forks(steps[1..])
  }

  function Ticks(steps: seq<Step>): nat {
    if steps == [] then 0 else (if steps[0].StepTick? then 1 else 0) + Ticks(steps[1..])
  }

  /** Whether a step takes a scheduling decision. */
  predicate Decides(s: System, step: Step) {
    step.StepSchedule? || (step.StepTick? && SliceEnds(s))
  }

  function Decisions(s: System, steps: seq<Step>): nat
    decreases |steps|
  {
    if steps == [] then 0
    else (if Decides(s, steps[0]) then 1 else 0) + Decisions(Apply(s, steps[0]), steps[1..])
  }

  /** NEXT_PID does not wrap in the run: a bound on the forks, known beforehand. */
  predicate NoWrap(s: System, steps: seq<Step>) {
    s.nextPid + Forks(steps) < U32_LIMIT
  }

  // ---- the basic invariant ----

  predicate Sorted(table: seq<Process>) {
    forall i, j :: 0 <= i < j < |table| ==> table[i].pid < table[j].pid
  }

  /** Strictly sorted by PID, every PID below the next one. */
  predicate Ordered(s: System) {
    && Sorted(s.table)
    && forall i :: 0 <= i < |s.table| ==> s.table[i].pid < s.nextPid
  }
}
