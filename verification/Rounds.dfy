/** Runs put together from parts, and what the clock alone does: for runs written out step by step. */
module Rounds {
  import opened ProcessTable

  lemma {:induction false} RunConcat(s: System, a: seq<Step>, b: seq<Step>)
    ensures Run(s, a + b) == Run(Run(s, a), b)
    decreases |a|
  {
    if a == [] {
      assert a + b == b;
    } else {
      assert (a + b)[1..] == a[1..] + b;
      RunConcat(Apply(s, a[0]), a[1..], b);
    }
  }

  lemma RunThen(s: System, a: seq<Step>, m: System, b: seq<Step>, t: System)
    requires Run(s, a) == m && Run(m, b) == t
    ensures Run(s, a + b) == t
  {
    RunConcat(s, a, b);
  }

  lemma RunOne(s: System, step: Step)
    ensures Run(s, [step]) == Apply(s, step)
  {
    assert Run(s, [step]) == Run(Apply(s, step), []);
  }

  lemma RunTwo(s: System, a: Step, b: Step)
    ensures Run(s, [a] + [b]) == Apply(Apply(s, a), b)
  {
    RunConcat(s, [a], [b]);
    RunOne(s, a);
    RunOne(Apply(s, a), b);
  }

  /** `n` timer ticks. */
  function Clock(n: nat): seq<Step> {
    if n == 0 then [] else [StepTick] + Clock(n - 1)
  }

  /** The current process has no signal to deliver. */
  predicate Calm(s: System) {
    Present(s.table, s.current) ==> Get(s.table, s.current).pending == 0
  }

  lemma QuietTick(s: System)
    requires Calm(s) && !SliceEnds(s)
    ensures Apply(s, StepTick) == s.(tick := s.tick + 1)
  {}

  lemma LastTick(s: System)
    requires Calm(s) && SliceEnds(s)
    ensures Apply(s, StepTick) == Schedule(s.(tick := s.tick + 1))
  {}

  /** `n` more ticks end a slice: where the next one stands. */
  lemma TickAdvances(tick: nat, n: nat)
    requires n > 0 && tick % TIMESLICE + n == TIMESLICE
    ensures (tick + 1) % TIMESLICE == if n == 1 then 0 else TIMESLICE - n + 1
  {}

  /** The ticks up to the end of a slice come down to one scheduling decision. */
  lemma {:induction false} SliceRuns(s: System, n: nat)
    requires Calm(s) && n > 0 && s.tick % TIMESLICE + n == TIMESLICE
    ensures Run(s, Clock(n)) == Schedule(s.(tick := s.tick + n))
    decreases n
  {
    TickAdvances(s.tick, n);
    assert Clock(n)[1..] == Clock(n - 1);
    if n == 1 {
      LastTick(s);
    } else {
      QuietTick(s);
      SliceRuns(s.(tick := s.tick + 1), n - 1);
    }
  }
}
