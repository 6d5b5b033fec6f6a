/**
 Signal delivery: a SIGKILL stays pending until its target is scheduled and takes
 effect at the first tick that finds the target current.
 */
module Signals {
  import opened ProcessTable
  import opened ProcessOrder
  import opened Zombies
  import opened Scheduling

  predicate Killable(s: System, w: nat) {
    && Present(s.table, w) && Get(s.table, w).IsRunnable()
    && HasSignal(Get(s.table, w).pending, SIGKILL)
  }

  lemma BitsCarry(a: bv32, b: bv32, k: bv32)
    requires a & b == a && a & k != 0
    ensures b & k != 0
  {}

  lemma KeptKeepsSignals(p: Process, q: Process)
    requires Kept(p, q) && HasSignal(p.pending, SIGKILL)
    ensures HasSignal(q.pending, SIGKILL)
  {
    BitsCarry(p.pending, q.pending, Bit(SIGKILL));
  }

  lemma BitIsSet(a: bv32, k: bv32)
    requires k != 0
    ensures (a | k) & k != 0
  {}

  /** Sending SIGKILL to a runnable process marks it and changes nothing else. */
  lemma KillMarks(s: System, w: nat)
    requires Present(s.table, w) && Get(s.table, w).IsRunnable()
    ensures var (t, r) := Kill(s, w, SIGKILL);
      && r == Sent && Killable(t, w) && t == s.(table := t.table) && |t.table| == |s.table|
      && Kept(Get(s.table, w), Get(t.table, w))
      && forall i :: 0 <= i < |s.table| && i != Find(s.table, w) ==> t.table[i] == s.table[i]
  {
    var t := Kill(s, w, SIGKILL).0;
    assert SamePids(s.table, t.table);
    FindSame(s.table, t.table, w);
    BitIsSet(Get(s.table, w).pending, Bit(SIGKILL));
    KeptInKill(s, w, SIGKILL, Find(s.table, w));
  }

  /** `w` calls `execve` or `exit`, which drop or overtake the signal. */
  predicate Escapes(s: System, step: Step, w: nat) {
    s.current == w && (step.StepExecve? || step.StepExit?)
  }

  /** A tick finds `w` current. */
  predicate Hits(s: System, step: Step, w: nat) {
    s.current == w && step.StepTick?
  }

  predicate NeverEscapes(s: System, steps: seq<Step>, w: nat)
    decreases |steps|
  {
    steps == [] || (!Escapes(s, steps[0], w) && NeverEscapes(Apply(s, steps[0]), steps[1..], w))
  }

  predicate NeverHit(s: System, steps: seq<Step>, w: nat)
    decreases |steps|
  {
    steps == [] || (!Hits(s, steps[0], w) && NeverHit(Apply(s, steps[0]), steps[1..], w))
  }

  lemma KillableStep(s: System, step: Step, w: nat)
    requires Ordered(s) && Killable(s, w)
    requires !Escapes(s, step, w) && !Hits(s, step, w)
    ensures Killable(Apply(s, step), w)
  {
    var t := Apply(s, step).table;
    if w != s.current {
      Frame(s, step, w);
      KeptKeepsSignals(Get(s.table, w), Get(t, w));
    } else if step.StepFork? {
      FindAppended(s.table, Child(Get(s.table, w), s.nextPid), w);
    } else if step.StepWait? {
      KeptInWait(s, step.target, w);
    } else if step.StepKill? {
      SlotsKept(s, step);
      FindSame(s.table, t, w);
      KeptInKill(s, step.pid, step.sig, Find(s.table, w));
      KeptKeepsSignals(Get(s.table, w), Get(t, w));
    }
  }

  /** Until a tick finds it current, the target stays runnable and the signal pending. */
  lemma {:induction false} KillStaysPending(s: System, steps: seq<Step>, w: nat)
    requires Ordered(s) && NoWrap(s, steps) && Killable(s, w)
    requires NeverEscapes(s, steps, w) && NeverHit(s, steps, w)
    ensures Killable(Run(s, steps), w) && Ordered(Run(s, steps))
    decreases |steps|
  {
    if steps != [] {
      OrderedStep(s, steps[0]);
      KillableStep(s, steps[0], w);
      KillStaysPending(Apply(s, steps[0]), steps[1..], w);
    }
  }

  predicate DiedWith(s: System, w: nat, code: int) {
    IsZombie(s, w) && Get(s.table, w).exitCode == code
  }

  lemma DispatchKills(s: System, w: nat)
    requires Ordered(s) && Killable(s, w)
    ensures DiedWith(Dispatch(s, w), w, 137) && Get(Dispatch(s, w).table, w).pending == 0
  {
    var t := Dispatch(s, w);
    assert Get(s.table, w).pending != 0;
    assert SamePids(s.table, t.table);
    FindSame(s.table, t.table, w);
  }

  /** The tick that finds it current kills it with code 128 + 9, whatever else is pending. */
  lemma HitKills(s: System, w: nat)
    requires Ordered(s) && Killable(s, w) && s.current == w
    ensures DiedWith(Tick(s), w, 137)
  {
    DispatchKills(s.(tick := s.tick + 1), w);
  }

  /** SIGKILL delivery over any run that leads to the first tick with the target current. */
  lemma SigkillDelivered(s: System, steps: seq<Step>, w: nat)
    requires Ordered(s) && NoWrap(s, steps) && Killable(s, w)
    requires NeverEscapes(s, steps, w) && NeverHit(s, steps, w) && Run(s, steps).current == w
    ensures DiedWith(Tick(Run(s, steps)), w, 137)
  {
    KillStaysPending(s, steps, w);
    HitKills(Run(s, steps), w);
  }

  // ---- how long it takes ----

  /** A run from a live state with idle alive in which the runnable `w`, sent SIGKILL, does not escape. */
  predicate Condemned(s: System, steps: seq<Step>, w: nat) {
    && Live(s) && NoWrap(s, steps) && IdleLives(s, steps)
    && Killable(s, w) && NeverEscapes(s, steps, w)
  }

  /** The forced schedules taken while `w` is current: they may take the processor from it before a tick does. */
  function Passes(s: System, steps: seq<Step>, w: nat): nat
    decreases |steps|
  {
    if steps == [] then 0
    else (if s.current == w && steps[0].StepSchedule? then 1 else 0) + Passes(Apply(s, steps[0]), steps[1..], w)
  }

  /** p * room, by repeated addition. */
  function Times(p: nat, room: nat): nat {
    if p == 0 then 0 else Times(p - 1, room) + room
  }

  lemma {:induction false} TimesIs(p: nat, room: nat)
    ensures Times(p, room) == p * room
    decreases p
  {
    if p > 0 {
      TimesIs(p - 1, room);
      assert p * room == (p - 1) * room + room;
    }
  }

  /**
   What the clock can do without hitting `w`: at most a slice for every place `w`
   is away from the processor, and for every pass the way around the ring once more.
   */
  predicate TickBound(s: System, steps: seq<Step>, w: nat, room: nat)
    requires Present(s.table, w) && Present(s.table, s.current)
  {
    var passes := TIMESLICE * Times(Passes(s, steps, w), room);
    if s.current == w then Ticks(steps) <= passes
    else Ticks(steps) + s.tick % TIMESLICE <= TIMESLICE * (Rank(s, w) + Forks(steps)) + passes
  }

  lemma TableGrows(s: System, step: Step)
    ensures |Apply(s, step).table| <= |s.table| + (if step.StepFork? then 1 else 0)
  {
    if KeepsSlots(step) {
      SlotsKept(s, step);
    }
  }


  /** A step while `w` waits: it comes closer, or becomes current within the slice. */
  lemma BoundWaiting(s: System, steps: seq<Step>, w: nat, room: nat)
    requires Live(s) && steps != [] && Waiting(s, w)
    requires var s1 := Apply(s, steps[0]);
      Present(s1.table, w) && Present(s1.table, s1.current) && TickBound(s1, steps[1..], w, room)
    ensures TickBound(s, steps, w, room)
  {
    var s1, rest := Apply(s, steps[0]), steps[1..];
    RankStep(s, steps[0], w);
    TickOf(s, steps[0]);
    if s1.current != w {
      var extra := Times(Passes(s1, rest, w), room);
      TickBudget(s.tick, s1.tick, Rank(s1, w) + Forks(rest) + extra, Rank(s, w) + Forks(steps) + extra, Ticks(rest));
    }
  }

  /** A step other than a tick while `w` is current: only a forced schedule moves on. */
  lemma BoundCurrent(s: System, steps: seq<Step>, w: nat, room: nat)
    requires steps != [] && s.current == w && !steps[0].StepTick? && Present(s.table, w)
    requires var s1 := Apply(s, steps[0]);
      && Present(s1.table, w) && Present(s1.table, s1.current) && TickBound(s1, steps[1..], w, room)
      && |s1.table| - 1 + Forks(steps[1..]) <= room
    ensures TickBound(s, steps, w, room)
  {
    var p := Passes(Apply(s, steps[0]), steps[1..], w);
    assert Times(p + 1, room) == Times(p, room) + room;
  }

  lemma CondemnedStep(s: System, steps: seq<Step>, w: nat)
    requires Condemned(s, steps, w) && steps != [] && !Hits(s, steps[0], w)
    ensures Condemned(Apply(s, steps[0]), steps[1..], w)
  {
    LiveTail(s, steps);
    StillKillable(s, steps, w);
  }

  lemma StillKillable(s: System, steps: seq<Step>, w: nat)
    requires Ordered(s) && Killable(s, w) && NeverEscapes(s, steps, w) && steps != [] && !Hits(s, steps[0], w)
    ensures Killable(Apply(s, steps[0]), w) && NeverEscapes(Apply(s, steps[0]), steps[1..], w)
  {
    KillableStep(s, steps[0], w);
  }

  /** The clock a killed process can see before a tick finds it current. */
  lemma {:induction false} TicksBeforeHit(s: System, steps: seq<Step>, w: nat, room: nat)
    requires Condemned(s, steps, w) && NeverHit(s, steps, w)
    requires |s.table| - 1 + Forks(steps) <= room
    ensures TickBound(s, steps, w, room)
    decreases |steps|
  {
    if steps != [] {
      CondemnedStep(s, steps, w);
      TableGrows(s, steps[0]);
      TicksBeforeHit(Apply(s, steps[0]), steps[1..], w, room);
      if s.current == w {
        BoundCurrent(s, steps, w, room);
      } else {
        BoundWaiting(s, steps, w, room);
      }
    }
  }

  /** The clock against the ranks: a tick that ends a slice is worth a whole rank. */
  lemma TickBudget(tick: nat, next: nat, after: nat, before: nat, rest: nat)
    requires tick <= next <= tick + 1
    requires rest + next % TIMESLICE <= TIMESLICE * after
    requires after + (if next == tick + 1 && next % TIMESLICE == 0 then 1 else 0) <= before
    ensures rest + (next - tick) + tick % TIMESLICE <= TIMESLICE * before
  {}

  lemma {:induction false} FirstHit(s: System, steps: seq<Step>, w: nat) returns (i: nat)
    requires !NeverHit(s, steps, w) && NeverEscapes(s, steps, w)
    ensures i < |steps| && NeverHit(s, steps[..i], w) && NeverEscapes(s, steps[..i], w)
    ensures Hits(Run(s, steps[..i]), steps[i], w)
    ensures Run(s, steps[..i + 1]) == Tick(Run(s, steps[..i]))
    decreases |steps|
  {
    if Hits(s, steps[0], w) {
      i := 0;
      assert steps[..1][1..] == [];
    } else {
      var k := FirstHit(Apply(s, steps[0]), steps[1..], w);
      i := k + 1;
      assert steps[..i][1..] == steps[1..][..k];
      assert steps[..i + 1][1..] == steps[1..][..k + 1];
    }
  }

  lemma ForksPrefix(steps: seq<Step>, i: nat)
    requires i <= |steps|
    ensures Forks(steps[..i]) <= Forks(steps)
  {
    if i > 0 {
      assert steps[..i][1..] == steps[1..][..i - 1];
      ForksPrefix(steps[1..], i - 1);
    }
  }

  /** How often `w` may have to wait its way around the ring: now, if it is not current, and after every pass. */
  function Laps(s: System, steps: seq<Step>, w: nat): nat {
    Passes(s, steps, w) + (if s.current == w then 0 else 1)
  }

  /** The run has more ticks than any run without a hit. */
  predicate IsLong(s: System, steps: seq<Step>, w: nat, room: nat) {
    Ticks(steps) > TIMESLICE * Times(Laps(s, steps, w), room)
  }

  lemma BoundAtStart(s: System, steps: seq<Step>, w: nat, room: nat)
    requires Present(s.table, w) && Present(s.table, s.current)
    requires TickBound(s, steps, w, room) && room == |s.table| - 1 + Forks(steps)
    ensures !IsLong(s, steps, w, room)
  {
    if s.current != w {
      NotLong(Ticks(steps), Rank(s, w) + Forks(steps), Passes(s, steps, w), room);
    }
  }

  lemma NotLong(ticks: nat, rank: nat, p: nat, room: nat)
    requires ticks <= TIMESLICE * rank + TIMESLICE * Times(p, room) && rank <= room
    ensures ticks <= TIMESLICE * Times(p + 1, room)
  {}

  lemma LongRunHits(s: System, steps: seq<Step>, w: nat, room: nat)
    requires Condemned(s, steps, w)
    requires room == |s.table| - 1 + Forks(steps) && IsLong(s, steps, w, room)
    ensures !NeverHit(s, steps, w)
  {
    if NeverHit(s, steps, w) {
      TicksBeforeHit(s, steps, w, room);
      BoundAtStart(s, steps, w, room);
    }
  }

  lemma LongEnough(ticks: nat, p: nat, room: nat)
    requires ticks > TIMESLICE * (p * room)
    ensures ticks > TIMESLICE * Times(p, room)
  {
    TimesIs(p, room);
  }

  lemma DiesAtHit(s: System, steps: seq<Step>, w: nat) returns (i: nat)
    requires Condemned(s, steps, w) && !NeverHit(s, steps, w)
    ensures i < |steps| && DiedWith(Run(s, steps[..i + 1]), w, 137)
  {
    i := FirstHit(s, steps, w);
    ForksPrefix(steps, i);
    SigkillDelivered(s, steps[..i], w);
  }

  /**
   A deadline for SIGKILL: with idle alive, a killed process that does not escape is
   a zombie with code 137 at some point of every run of more than
   10 * (p + 1) * (n - 1 + f) ticks, for p the forced schedules taken while it is
   current; of more than 10 * p * (n - 1 + f) if it is current at the start.
   */
  lemma KillDeadline(s: System, steps: seq<Step>, w: nat) returns (i: nat)
    requires Condemned(s, steps, w)
    requires Ticks(steps) > TIMESLICE * (Laps(s, steps, w) * (|s.table| - 1 + Forks(steps)))
    ensures i < |steps| && DiedWith(Run(s, steps[..i + 1]), w, 137)
  {
    var room := |s.table| - 1 + Forks(steps);
    assert IsLong(s, steps, w, room) by {
      LongEnough(Ticks(steps), Laps(s, steps, w), room);
    }
    LongRunHits(s, steps, w, room);
    i := DiesAtHit(s, steps, w);
  }

  // ---- forced schedules belong to exits ----

  /** Every forced schedule belongs to an `exit` before it; `owed` of them are still to come at the start. */
  predicate Forced(steps: seq<Step>, owed: nat)
    decreases |steps|
  {
    steps == [] ||
    (&& (steps[0].StepSchedule? ==> owed > 0)
     && Forced(steps[1..], if steps[0].StepSchedule? then owed - 1 else if steps[0].StepExit? then owed + 1 else owed))
  }

  function Exits(steps: seq<Step>): nat {
    if steps == [] then 0 else (if steps[0].StepExit? then 1 else 0) + Exits(steps[1..])
  }

  lemma {:induction false} PassesBound(s: System, steps: seq<Step>, w: nat, owed: nat)
    requires Forced(steps, owed)
    ensures Passes(s, steps, w) <= owed + Exits(steps)
    decreases |steps|
  {
    if steps != [] {
      var step := steps[0];
      PassesBound(Apply(s, step), steps[1..], w,
                  if step.StepSchedule? then owed - 1 else if step.StepExit? then owed + 1 else owed);
    }
  }

  lemma TimesMonotone(p: nat, q: nat, room: nat)
    requires p <= q
    ensures p * room <= q * room
  {}

  /**
   The deadline as the kernel's callers see it: every forced schedule is that of an
   `exit`, so 10 * (e + 1) * (n - 1 + f) ticks suffice, for e the exits of the run
   and those still owing their schedule at its start.
   */
  lemma KillDeadlineByExits(s: System, steps: seq<Step>, w: nat, owed: nat) returns (i: nat)
    requires Condemned(s, steps, w) && Forced(steps, owed)
    requires Ticks(steps) > TIMESLICE * ((owed + Exits(steps) + 1) * (|s.table| - 1 + Forks(steps)))
    ensures i < |steps| && DiedWith(Run(s, steps[..i + 1]), w, 137)
  {
    PassesBound(s, steps, w, owed);
    TimesMonotone(Laps(s, steps, w), owed + Exits(steps) + 1, |s.table| - 1 + Forks(steps));
    i := KillDeadline(s, steps, w);
  }
}
