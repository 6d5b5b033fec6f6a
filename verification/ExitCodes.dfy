/**
 What signals do when they are delivered, and whether the exit code of a dead
 process is final.
 */
module ExitCodes {
  import opened Wrappers
  import opened ProcessTable
  import opened ProcessOrder
  import opened Zombies
  import opened Signals

  predicate Terminates(sig: bv8) {
    sig == SIGKILL || sig == SIGTERM || sig == SIGINT || sig == SIGQUIT
  }

  lemma OtherBit(pending: bv32, sig: bv8, k: bv8)
    requires sig <= 31 && k <= 31 && sig != k
    ensures HasSignal(pending | Bit(sig), k) == HasSignal(pending, k)
  {}

  /** The other signals are ignored: sending one never changes what a delivery will do. */
  lemma OtherSignalsIgnored(pending: bv32, sig: bv8)
    requires sig <= 31 && !Terminates(sig)
    ensures TerminatingSignal(pending | Bit(sig)) == TerminatingSignal(pending)
  {
    OtherBit(pending, sig, SIGKILL);
    OtherBit(pending, sig, SIGTERM);
    OtherBit(pending, sig, SIGINT);
    OtherBit(pending, sig, SIGQUIT);
  }

  /** The signals `sigs` sent to `w`, one after the other. */
  function Kills(w: nat, sigs: seq<bv8>): seq<Step> {
    if sigs == [] then [] else [StepKill(w, sigs[0])] + Kills(w, sigs[1..])
  }

  lemma MaskSets(pending: bv32, sig: bv8, k: bv8)
    requires sig <= 31 && k <= 31
    ensures HasSignal(pending | Bit(sig), k) <==> HasSignal(pending, k) || sig == k
  {
    if sig == k {
      BitIsSet(pending, Bit(k));
    } else {
      OtherBit(pending, sig, k);
    }
  }

  lemma KillSets(s: System, w: nat, sig: bv8, k: bv8)
    requires Present(s.table, w) && 0 < k <= 31
    ensures var t := Kill(s, w, sig).0.table;
      && Present(t, w) && Get(t, w).state == Get(s.table, w).state && Get(t, w).exitCode == Get(s.table, w).exitCode
      && (HasSignal(Get(t, w).pending, k) <==> HasSignal(Get(s.table, w).pending, k) || sig == k)
  {
    SlotsKept(s, StepKill(w, sig));
    FindSame(s.table, Kill(s, w, sig).0.table, w);
    if 0 < sig <= 31 {
      MaskSets(Get(s.table, w).pending, sig, k);
    }
  }

  /** `k` is pending for `w`, or among `sigs`. */
  predicate Due(s: System, w: nat, sigs: seq<bv8>, k: bv8)
    requires Present(s.table, w) && k <= 31
  {
    HasSignal(Get(s.table, w).pending, k) || k in sigs
  }

  /** The mask is the set of the signals sent: order, repetition and invalid signals do not matter. */
  lemma {:induction false} SignalsAccumulate(s: System, w: nat, sigs: seq<bv8>, k: bv8)
    requires Present(s.table, w) && 0 < k <= 31
    ensures var t := Run(s, Kills(w, sigs)).table;
      && Present(t, w) && Get(t, w).state == Get(s.table, w).state && Get(t, w).exitCode == Get(s.table, w).exitCode
      && (HasSignal(Get(t, w).pending, k) <==> Due(s, w, sigs, k))
    decreases |sigs|
  {
    if sigs != [] {
      assert Kills(w, sigs)[1..] == Kills(w, sigs[1..]);
      KillSets(s, w, sigs[0], k);
      SignalsAccumulate(Kill(s, w, sigs[0]).0, w, sigs[1..], k);
    }
  }

  /** The exit code a set of due signals asks for. */
  function DueCode(s: System, w: nat, sigs: seq<bv8>): Option<int>
    requires Present(s.table, w)
  {
    if Due(s, w, sigs, SIGKILL) then Some(137)
    else if Due(s, w, sigs, SIGTERM) then Some(143)
    else if Due(s, w, sigs, SIGINT) then Some(130)
    else if Due(s, w, sigs, SIGQUIT) then Some(131)
    else None
  }

  /**
   Signals sent one after the other and then delivered: KILL overrides TERM, TERM
   overrides INT, INT overrides QUIT, whatever else is sent and in whatever order;
   without these four the process keeps its state and exit code.
   */
  lemma SignalsDelivered(s: System, w: nat, sigs: seq<bv8>)
    requires Present(s.table, w)
    ensures var t := Dispatch(Run(s, Kills(w, sigs)), w); var code := DueCode(s, w, sigs);
      && Present(t.table, w) && Get(t.table, w).pending == 0
      && (code.Some? ==> DiedWith(t, w, code.value))
      && (code.None? ==> Get(t.table, w).state == Get(s.table, w).state
                         && Get(t.table, w).exitCode == Get(s.table, w).exitCode)
  {
    SignalsAccumulate(s, w, sigs, SIGKILL);
    SignalsAccumulate(s, w, sigs, SIGTERM);
    SignalsAccumulate(s, w, sigs, SIGINT);
    SignalsAccumulate(s, w, sigs, SIGQUIT);
    DispatchDelivers(Run(s, Kills(w, sigs)), w);
  }

  lemma DispatchDelivers(s: System, w: nat)
    requires Present(s.table, w)
    ensures Present(Dispatch(s, w).table, w) && Get(Dispatch(s, w).table, w) == Deliver(Get(s.table, w))
  {
    var t := Dispatch(s, w);
    assert SamePids(s.table, t.table);
    FindSame(s.table, t.table, w);
    assert TerminatingSignal(0) == None;
  }

  // ---- whether the exit code of a dead process is final ----

  lemma TickKeepsCodeIff(s: System, w: nat)
    requires Ordered(s) && IsZombie(s, w) && s.current == w
    ensures var sig := TerminatingSignal(Get(s.table, w).pending); var code := Get(s.table, w).exitCode;
      DiedWith(Tick(s), w, code) <==> sig.None? || code == 128 + sig.value as int
  {
    DispatchDelivers(s.(tick := s.tick + 1), w);
  }

  lemma ExitSetsCode(s: System, w: nat, code: int)
    requires Ordered(s) && Present(s.table, w) && s.current == w
    ensures DiedWith(Exit(s, code), w, code)
  {
    ExitKeepsSlots(s, code);
    FindSame(s.table, Exit(s, code).table, w);
  }

  lemma QuietKeepsCode(s: System, step: Step, w: nat)
    requires IsZombie(s, w) && (step.StepFork? || step.StepExecve? || step.StepKill? || step.StepSchedule?)
    ensures DiedWith(Apply(s, step), w, Get(s.table, w).exitCode)
  {
    if step.StepFork? {
      if Present(s.table, s.current) {
        FindAppended(s.table, Child(Get(s.table, s.current), s.nextPid), w);
      }
    } else {
      SlotsKept(s, step);
      FindSame(s.table, Apply(s, step).table, w);
    }
  }

  /** The step gives a dead process that is still current another exit code: its own `exit`, or a signal. */
  predicate Recodes(s: System, step: Step, w: nat)
    requires Present(s.table, w)
  {
    var sig := TerminatingSignal(Get(s.table, w).pending); var code := Get(s.table, w).exitCode;
    && s.current == w
    && ((step.StepExit? && step.code != code)
        || (step.StepTick? && sig.Some? && code != 128 + sig.value as int))
  }

  /**
   Whether the exit code of a dead process survives a step, for every step: exactly
   when the step does not reap it, and, if it is still current, is neither an `exit`
   with another code nor a tick that delivers a signal with another code.
   */
  lemma CodeKeptIff(s: System, step: Step, w: nat)
    requires Ordered(s) && IsZombie(s, w)
    ensures DiedWith(Apply(s, step), w, Get(s.table, w).exitCode) <==> !Reaps(s, step, w) && !Recodes(s, step, w)
  {
    if s.current != w {
      Frame(s, step, w);
    } else if step.StepWait? {
      KeptInWait(s, step.target, w);
    } else if step.StepTick? {
      TickKeepsCodeIff(s, w);
    } else if step.StepExit? {
      ExitSetsCode(s, w, step.code);
    } else {
      QuietKeepsCode(s, step, w);
    }
  }

  /** `w` is dead with this code in every state of the run. */
  predicate StaysDead(s: System, steps: seq<Step>, w: nat, code: int)
    decreases |steps|
  {
    DiedWith(s, w, code) && (steps == [] || StaysDead(Apply(s, steps[0]), steps[1..], w, code))
  }

  /** No step of the run reaps `w` or gives it another code. */
  predicate LeftAlone(s: System, steps: seq<Step>, w: nat)
    decreases |steps|
  {
    Present(s.table, w) &&
    (steps == [] ||
     (!Reaps(s, steps[0], w) && !Recodes(s, steps[0], w) && LeftAlone(Apply(s, steps[0]), steps[1..], w)))
  }

  /** The same over runs. */
  lemma {:induction false} CodeFinalIff(s: System, steps: seq<Step>, w: nat)
    requires Ordered(s) && NoWrap(s, steps) && IsZombie(s, w)
    ensures StaysDead(s, steps, w, Get(s.table, w).exitCode) <==> LeftAlone(s, steps, w)
    decreases |steps|
  {
    if steps != [] {
      OrderedStep(s, steps[0]);
      CodeKeptIff(s, steps[0], w);
      if DiedWith(Apply(s, steps[0]), w, Get(s.table, w).exitCode) {
        CodeFinalIff(Apply(s, steps[0]), steps[1..], w);
      }
    }
  }

  /** SIGTERM, sent to a process SIGKILL has just killed, turns 137 into 143. */
  lemma LaterSignalOverwrites(s: System, w: nat)
    requires DiedWith(s, w, 137) && s.current == w && Get(s.table, w).pending == 0
    ensures DiedWith(Tick(Kill(s, w, SIGTERM).0), w, 143)
  {
    var s1 := Kill(s, w, SIGTERM).0;
    SlotsKept(s, StepKill(w, SIGTERM));
    FindSame(s.table, s1.table, w);
    assert Get(s1.table, w).pending == 0 | Bit(SIGTERM) == Bit(SIGTERM);
    DispatchDelivers(s1.(tick := s1.tick + 1), w);
  }
}
