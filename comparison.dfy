/** How the two schedulers relate, and the two schedules of bursts 5, 3 and 8 traced in full. */
module Comparison {
  import opened Sums
  import opened Procs
  import opened FirstComeFirstServed
  import opened RoundRobin

  /** A process whose burst fits in one quantum runs to completion in its one step, as under FCFS. */
  lemma StepCompletes(s: seq<Pcb>, current: nat, quantum: int)
    requires current < |s| && quantum > 0
    requires 0 <= s[current].burstLeft <= quantum
    ensures StepAmount(s, current, quantum) == s[current].burstLeft
    ensures Step(s, current, quantum) == Advance(s, current, s[current].burstLeft)
  {
    if !Runnable(s[current]) {
      AdvanceZero(s, current);
    }
  }

  /**
   * When no record up to `current` is runnable, rr_next's choice is the first
   * runnable index after `current`: the scan does not need to wrap around.
   */
  lemma NextRunnableAfter(s: seq<Pcb>, current: nat)
    requires current < |s|
    requires forall i :: 0 <= i <= current ==> !Runnable(s[i])
    requires NextRunnable(s, current) != -1
    ensures current < NextRunnable(s, current)
    ensures forall i :: current < i < NextRunnable(s, current) ==> !Runnable(s[i])
  {
    var n := |s|;
    NextRunnableSpec(s, current);
    var next := NextRunnable(s, current);
    var d := FirstOffset(s, current, 1);
    if current + d >= n {
      ModWrapped(current + d, n);
      assert false;
    }
    ModBelow(current + d, n);
    forall i | current < i < next
      ensures !Runnable(s[i])
    {
      ModBelow(current + (i - current), n);
      assert !RunnableAt(s, current, i - current);
    }
  }

  /**
   * With every burst at most one quantum and all processes before `current`
   * finished, Round-Robin from `current` runs each remaining process to
   * completion in one slice, in increasing index order: exactly FCFS from `current`.
   */
  lemma {:induction false} RrFromIsFcfsFrom(s: seq<Pcb>, current: nat, quantum: int)
    requires current < |s| && quantum > 0
    requires forall i :: 0 <= i < |s| ==> 0 <= s[i].burstLeft <= quantum
    requires forall i :: 0 <= i < current ==> s[i].burstLeft == 0
    decreases RrMeasure(s, current)
    ensures RrFrom(s, current, quantum) == FcfsFrom(s, current)
  {
    var n := |s|;
    var burst := s[current].burstLeft;
    var s1 := Step(s, current, quantum);
    StepWork(s, current, quantum);
    StepCompletes(s, current, quantum);
    AdvanceEffect(s, current, burst);
    assert forall i :: 0 <= i < n ==> 0 <= s1[i].burstLeft <= quantum;
    assert forall i :: 0 <= i <= current ==> s1[i].burstLeft == 0;
    assert FcfsFrom(s, current) == Run(FcfsFrom(s1, current + 1).table, burst + FcfsFrom(s1, current + 1).elapsed);
    NextRunnableSpec(s1, current);
    var next := NextRunnable(s1, current);
    if next == -1 {
      FcfsSkip(s1, current + 1, n);
    } else {
      NextRunnableAfter(s1, current);
      FcfsSkip(s1, current + 1, next);
      RrFromIsFcfsFrom(s1, next, quantum);
    }
  }

  /**
   * When no burst exceeds the quantum, Round-Robin and FCFS end with the same
   * table (hence the same waits) and take the same time.
   */
  lemma RrIsFcfs(s: seq<Pcb>, quantum: int)
    requires |s| > 0 && quantum > 0
    requires forall i :: 0 <= i < |s| ==> 0 <= s[i].burstLeft <= quantum
    ensures Rr(s, quantum) == Fcfs(s)
  {
    RrFromIsFcfsFrom(s, 0, quantum);
  }

  /** FCFS on bursts 5, 3 and 8: waits 0, 5 and 8, total time 16. */
  lemma FcfsTrace()
    ensures Fcfs(InitTable([5, 3, 8])) == Run([Pcb(0, 0, 0), Pcb(1, 0, 5), Pcb(2, 0, 8)], 16)
  {
    var s := InitTable([5, 3, 8]);
    assert s == [Pcb(0, 5, 0), Pcb(1, 3, 0), Pcb(2, 8, 0)];
    FcfsResult(s);
    var b := Bursts(s);
    assert b == [5, 3, 8];
    assert Sum(b[..0]) == 0;
    assert b[..1] == [5] && Sum([5]) == 5;
    assert b[..2] == [5, 3] && Sum([5, 3]) == 8;
    assert Sum(b) == 16 by {
      assert b[1..] == [3, 8] && [3, 8][1..] == [8];
    }
    var t := Fcfs(s).table;
    assert t[0] == Pcb(0, 0, 0) && t[1] == Pcb(1, 0, 5) && t[2] == Pcb(2, 0, 8);
  }

  /**
   * Round-Robin with quantum 4 on bursts 5, 3 and 8: slices P0 4, P1 3, P2 4,
   * P0 1, P2 4; waits 7, 4 and 8, total time 16.
   */
  lemma RrTrace()
    ensures Rr(InitTable([5, 3, 8]), 4) == Run([Pcb(0, 0, 7), Pcb(1, 0, 4), Pcb(2, 0, 8)], 16)
  {
    var s0 := InitTable([5, 3, 8]);
    assert s0 == [Pcb(0, 5, 0), Pcb(1, 3, 0), Pcb(2, 8, 0)];
    var s1 := [Pcb(0, 1, 0), Pcb(1, 3, 4), Pcb(2, 8, 4)];
    var s2 := [Pcb(0, 1, 3), Pcb(1, 0, 4), Pcb(2, 8, 7)];
    var s3 := [Pcb(0, 1, 7), Pcb(1, 0, 4), Pcb(2, 4, 7)];
    var s4 := [Pcb(0, 0, 7), Pcb(1, 0, 4), Pcb(2, 4, 8)];
    var s5 := [Pcb(0, 0, 7), Pcb(1, 0, 4), Pcb(2, 0, 8)];
    assert Step(s0, 0, 4) == s1;
    assert !AllDone(s1) && RunnableAt(s1, 0, 1);
    assert NextRunnable(s1, 0) == 1;
    assert Step(s1, 1, 4) == s2;
    assert !AllDone(s2) && RunnableAt(s2, 1, 1);
    assert NextRunnable(s2, 1) == 2;
    assert Step(s2, 2, 4) == s3;
    assert !AllDone(s3) && RunnableAt(s3, 2, 1);
    assert NextRunnable(s3, 2) == 0;
    assert Step(s3, 0, 4) == s4;
    assert !AllDone(s4) && !RunnableAt(s4, 0, 1) && RunnableAt(s4, 0, 2);
    assert FirstOffset(s4, 0, 1) == 2;
    assert NextRunnable(s4, 0) == 2;
    assert Step(s4, 2, 4) == s5;
    assert AllDone(s5);
    assert RrFrom(s4, 2, 4) == Run(s5, 4);
    assert RrFrom(s3, 0, 4) == Run(s5, 5);
    assert RrFrom(s2, 2, 4) == Run(s5, 9);
    assert RrFrom(s1, 1, 4) == Run(s5, 12);
  }
}
