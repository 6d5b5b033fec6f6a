/** On an unchanging table the scheduler walks the runnable processes in a cycle. */
module RoundRobin {
  import opened ProcessTable
  import opened ProcessOrder

  /** The PIDs the next `k` decisions select. */
  function Picks(table: seq<Process>, current: nat, k: nat): (r: seq<nat>)
    ensures |r| == k
    decreases k
  {
    if k == 0 then []
    else var c := NextPid(table, current); [c] + Picks(table, c, k - 1)
  }

  function Decide(k: nat): seq<Step> {
    if k == 0 then [] else [StepSchedule] + Decide(k - 1)
  }

  /** The picks are what `current` goes through in k scheduling steps. */
  lemma {:induction false} PicksAreRuns(s: System, k: nat)
    ensures Run(s, Decide(k)) == s.(current := if k == 0 then s.current else Picks(s.table, s.current, k)[k - 1])
    decreases k
  {
    if k > 0 {
      assert Decide(k)[1..] == Decide(k - 1);
      PicksAreRuns(Schedule(s), k - 1);
    }
  }

  /** The runnable slots among the first `n`, in order. */
  function RunnableSlots(table: seq<Process>, n: nat): (r: seq<nat>)
    requires n <= |table|
    ensures forall i :: 0 <= i < |r| ==> r[i] < n && table[r[i]].IsRunnable()
    ensures forall i, j :: 0 <= i < j < |r| ==> r[i] < r[j]
    ensures forall x :: 0 <= x < n && table[x].IsRunnable() ==> x in r
  {
    if n == 0 then []
    else if table[n - 1].IsRunnable() then RunnableSlots(table, n - 1) + [n - 1]
    else RunnableSlots(table, n - 1)
  }

  /** The first position in `slots` past `start`; none is `|slots|`. */
  function FirstPast(slots: seq<nat>, start: nat): (j: nat)
    ensures j <= |slots|
    ensures j < |slots| ==> slots[j] > start
    ensures forall i :: 0 <= i < j ==> slots[i] <= start
  {
    if slots == [] || slots[0] > start then 0 else 1 + FirstPast(slots[1..], start)
  }

  lemma FirstPastMember(slots: seq<nat>, m: nat)
    requires m < |slots| && forall i, j :: 0 <= i < j < |slots| ==> slots[i] < slots[j]
    ensures FirstPast(slots, slots[m]) == m + 1
  {
    var j := FirstPast(slots, slots[m]);
    assert m < j;
    assert m + 1 < |slots| ==> slots[m + 1] > slots[m];
  }

  function Wrap(j: nat, k: nat): nat
    requires j <= k
  {
    if j == k then 0 else j
  }

  /** One decision takes the first runnable slot past the start, on the ring. */
  lemma PickIs(table: seq<Process>, current: nat)
    requires table != [] && RunnableSlots(table, |table|) != []
    ensures var slots := RunnableSlots(table, |table|);
      NextPid(table, current)
      == table[slots[Wrap(FirstPast(slots, StartSlot(table, current)), |slots|)]].pid
  {
    var slots := RunnableSlots(table, |table|);
    var start := StartSlot(table, current);
    var r := slots[Wrap(FirstPast(slots, start), |slots|)];
    var e := if r > start then r - start else r + |table| - start;
    var d := Distance(table, start, 1);
    assert Slot(table, start, e) == r;
    assert RunnableAt(table, start, e);
    assert d <= e;
    var x := Slot(table, start, d);
    var i :| 0 <= i < |slots| && slots[i] == x;
    assert x == r;
  }

  /** The PIDs of the runnable processes, in slot order. */
  function RunnablePids(table: seq<Process>): (r: seq<nat>)
    ensures |r| == |RunnableSlots(table, |table|)|
  {
    var slots := RunnableSlots(table, |table|);
    seq(|slots|, i requires 0 <= i < |slots| => table[slots[i]].pid)
  }

  lemma RunnablePidsAre(table: seq<Process>)
    requires Sorted(table)
    ensures var pids := RunnablePids(table);
      && (forall i, j :: 0 <= i < j < |pids| ==> pids[i] < pids[j])
      && (forall pid :: pid in pids <==> Present(table, pid) && Get(table, pid).IsRunnable())
  {
    var pids, slots := RunnablePids(table), RunnableSlots(table, |table|);
    forall pid | pid in pids ensures Present(table, pid) && Get(table, pid).IsRunnable() {
      var i :| 0 <= i < |pids| && pids[i] == pid;
      FindAt(table, slots[i]);
    }
    forall pid | Present(table, pid) && Get(table, pid).IsRunnable() ensures pid in pids {
      var m :| 0 <= m < |slots| && slots[m] == Find(table, pid);
      assert pids[m] == pid;
    }
  }

  /** After a runnable process comes the next one in slot order, around the ring. */
  lemma NextOnRing(table: seq<Process>, m: nat)
    requires Sorted(table) && m < |RunnablePids(table)|
    ensures var pids := RunnablePids(table);
      NextPid(table, pids[m]) == pids[Wrap(m + 1, |pids|)]
  {
    var slots := RunnableSlots(table, |table|);
    FindAt(table, slots[m]);
    FirstPastMember(slots, m);
    PickIs(table, table[slots[m]].pid);
  }

  function At(j: nat, k: nat): nat
    requires j < 2 * k
  {
    if j < k then j else j - k
  }

  ghost predicate Follows(table: seq<Process>, pids: seq<nat>, m: nat)
    requires m < |pids|
  {
    NextPid(table, pids[m]) == pids[Wrap(m + 1, |pids|)]
  }

  /** `pids` in the order in which the scheduler goes around it. */
  ghost predicate Ring(table: seq<Process>, pids: seq<nat>) {
    forall m :: 0 <= m < |pids| ==> Follows(table, pids, m)
  }

  lemma RunnableRing(table: seq<Process>)
    requires Sorted(table)
    ensures Ring(table, RunnablePids(table))
  {
    var pids := RunnablePids(table);
    forall m | 0 <= m < |pids| ensures Follows(table, pids, m) {
      NextOnRing(table, m);
    }
  }

  lemma PicksUnfold(table: seq<Process>, current: nat, k: nat, i: nat)
    requires i < k
    ensures var c := NextPid(table, current);
      Picks(table, current, k)[i] == if i == 0 then c else Picks(table, c, k - 1)[i - 1]
  {}

  /** The picks from any PID whose next is `pids[j]`. */
  lemma {:induction false} PickAt(table: seq<Process>, pids: seq<nat>, current: nat, j: nat, k: nat, i: nat)
    requires Ring(table, pids) && j < |pids| && NextPid(table, current) == pids[j] && i < k <= |pids|
    ensures Picks(table, current, k)[i] == pids[At(j + i, |pids|)]
    decreases i
  {
    PicksUnfold(table, current, k, i);
    if i > 0 {
      assert Follows(table, pids, j);
      PickAt(table, pids, pids[j], Wrap(j + 1, |pids|), k - 1, i - 1);
    }
  }

  lemma FirstPick(table: seq<Process>, current: nat) returns (j: nat)
    requires RunnablePids(table) != []
    ensures j < |RunnablePids(table)| && NextPid(table, current) == RunnablePids(table)[j]
  {
    var slots := RunnableSlots(table, |table|);
    j := Wrap(FirstPast(slots, StartSlot(table, current)), |slots|);
    PickIs(table, current);
  }

  /** A rotation of a sequence without duplicates has the same members, once each. */
  lemma RotationCovers(pids: seq<nat>, picks: seq<nat>, j: nat)
    requires |picks| == |pids| && j < |pids|
    requires forall i, i' :: 0 <= i < i' < |pids| ==> pids[i] < pids[i']
    requires forall i :: 0 <= i < |pids| ==> picks[i] == pids[At(j + i, |pids|)]
    ensures forall i, i' :: 0 <= i < i' < |picks| ==> picks[i] != picks[i']
    ensures forall p :: p in picks <==> p in pids
  {
    var k := |pids|;
    forall p | p in pids ensures p in picks {
      var m :| 0 <= m < k && pids[m] == p;
      assert picks[if m >= j then m - j else m + k - j] == p;
    }
  }

  /**
   With k > 0 runnable processes, any k consecutive decisions select each of
   them exactly once and nothing else, whatever the current PID is.
   */
  lemma RoundIsACycle(table: seq<Process>, current: nat)
    requires Sorted(table) && RunnablePids(table) != []
    ensures var picks := Picks(table, current, |RunnablePids(table)|);
      && (forall i, j :: 0 <= i < j < |picks| ==> picks[i] != picks[j])
      && (forall pid :: pid in picks <==> Present(table, pid) && Get(table, pid).state in {Ready, Running})
  {
    var pids := RunnablePids(table);
    var picks := Picks(table, current, |pids|);
    RunnableRing(table);
    var j := FirstPick(table, current);
    forall i | 0 <= i < |pids| ensures picks[i] == pids[At(j + i, |pids|)] {
      PickAt(table, pids, current, j, |pids|, i);
    }
    RunnablePidsAre(table);
    RotationCovers(pids, picks, j);
  }

  /** The last of `pids` behind position `m` stays out of the next |pids| - 2 picks. */
  ghost predicate LastWaits(table: seq<Process>, pids: seq<nat>, m: nat)
    requires m < |pids| && 2 <= |pids|
  {
    pids[At(m + |pids| - 1, |pids|)] !in Picks(table, pids[m], |pids| - 2)
  }

  lemma LastOnRing(table: seq<Process>, pids: seq<nat>, m: nat)
    requires Ring(table, pids) && m < |pids| && 2 <= |pids|
    requires forall i, j :: 0 <= i < j < |pids| ==> pids[i] < pids[j]
    ensures LastWaits(table, pids, m)
  {
    var n := |pids|;
    var picks := Picks(table, pids[m], n - 2);
    assert Follows(table, pids, m);
    forall i | 0 <= i < |picks| ensures picks[i] != pids[At(m + n - 1, n)] {
      PickAt(table, pids, pids[m], Wrap(m + 1, n), n - 2, i);
      assert At(Wrap(m + 1, n) + i, n) != At(m + n - 1, n);
    }
  }

  /**
   The waiting bound cannot be improved: of k runnable processes, the one just
   behind the current one is not among the next k - 2 picks. With every slot
   runnable, k is the number of slots.
   */
  lemma BoundIsTight(table: seq<Process>, m: nat)
    requires Sorted(table) && 2 <= |RunnablePids(table)| && m < |RunnablePids(table)|
    ensures LastWaits(table, RunnablePids(table), m)
  {
    RunnableRing(table);
    RunnablePidsAre(table);
    LastOnRing(table, RunnablePids(table), m);
  }
}
