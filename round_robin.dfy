/** Round-Robin scheduling with a fixed quantum (rr_next and rr_run in parta.c). */
module RoundRobin {
  import opened Sums
  import opened Procs

  /** The record `offset` places after `current`, going round the table. */
  predicate RunnableAt(s: seq<Pcb>, current: nat, offset: nat)
    requires |s| > 0
  {
    Runnable(s[(current + offset) % |s|])
  }

  /**
   * The smallest offset d in k..|s| whose record is runnable, or |s| + 1 when
   * there is none: the scan loop of rr_next, started at offset k.
   */
  function FirstOffset(s: seq<Pcb>, current: nat, k: nat): (d: nat)
    requires 0 < |s| && 1 <= k <= |s| + 1
    decreases |s| + 1 - k
    ensures k <= d <= |s| + 1
    ensures d <= |s| ==> RunnableAt(s, current, d)
    ensures forall j :: k <= j < d && j <= |s| ==> !RunnableAt(s, current, j)
  {
    if k > |s| then k
    else if RunnableAt(s, current, k) then k
    else FirstOffset(s, current, k + 1)
  }

  /**
   * rr_next as a function: -1 when no record is runnable, otherwise the first
   * runnable record after `current`, going round the table (`current` itself
   * only when no other record is runnable).
   */
  function NextRunnable(s: seq<Pcb>, current: nat): (next: int)
    requires current < |s|
  {
    if AllDone(s) then -1
    else
      var d := FirstOffset(s, current, 1);
      if d <= |s| then (current + d) % |s| else -1
  }

  /** An index below n is its own remainder. */
  lemma ModBelow(x: int, n: int)
    requires 0 <= x < n
    ensures x % n == x
  {
  }

  /** An index between n and 2n - 1 wraps round to x - n. */
  lemma ModWrapped(x: int, n: int)
    requires 0 < n <= x < 2 * n
    ensures x % n == x - n
  {
  }

  /** Offset `d` in 1..|s| from `current` reaches index i. */
  lemma Reach(n: nat, current: nat, i: nat) returns (d: nat)
    requires current < n && i < n
    ensures 1 <= d <= n && (current + d) % n == i
  {
    if i > current {
      d := i - current;
    } else {
      d := i + n - current;
      assert n <= current + d < 2 * n;
    }
  }

  /**
   * What rr_next promises: it returns -1 exactly when no record is runnable;
   * otherwise the runnable index (current + d) % |s| for the smallest offset d
   * in 1..|s| that reaches a runnable record.
   */
  lemma NextRunnableSpec(s: seq<Pcb>, current: nat)
    requires current < |s|
    ensures NextRunnable(s, current) == -1 <==> AllDone(s)
    ensures NextRunnable(s, current) != -1 ==>
      0 <= NextRunnable(s, current) < |s| && Runnable(s[NextRunnable(s, current)])
    ensures NextRunnable(s, current) != -1 ==>
      var d := FirstOffset(s, current, 1);
      1 <= d <= |s| && NextRunnable(s, current) == (current + d) % |s| &&
      forall j :: 1 <= j < d ==> !RunnableAt(s, current, j)
  {
    if !AllDone(s) {
      var i :| 0 <= i < |s| && Runnable(s[i]);
      var e := Reach(|s|, current, i);
      var d := FirstOffset(s, current, 1);
      assert RunnableAt(s, current, e);
      assert d <= |s|;
    }
  }

  /** When only `current` is runnable, the scan goes all the way round and returns it. */
  lemma NextRunnableAlone(s: seq<Pcb>, current: nat)
    requires current < |s| && Runnable(s[current])
    requires forall i :: 0 <= i < |s| && i != current ==> !Runnable(s[i])
    ensures NextRunnable(s, current) == current
  {
    NextRunnableSpec(s, current);
  }

  /** rr_next: first decides whether all work is done, then scans round the table from current + 1. */
  method RrNext(current: int, procs: array<Pcb>) returns (next: int)
    requires 0 <= current < procs.Length
    ensures next == NextRunnable(procs[..], current)
  {
    var allDone := true;
    var i := 0;
    while i < procs.Length
      invariant 0 <= i <= procs.Length
      invariant allDone ==> forall j :: 0 <= j < i ==> !Runnable(procs[j])
      invariant !allDone ==> !AllDone(procs[..])
      invariant !allDone ==> i < procs.Length
    {
      if procs[i].burstLeft > 0 {
        allDone := false;
        break;
      }
      i := i + 1;
    }
    if allDone {
      return -1;
    }
    // current + offset is never negative here, so C's % agrees with Dafny's.
    var offset := 1;
    while offset <= procs.Length
      invariant 1 <= offset <= procs.Length + 1
      invariant FirstOffset(procs[..], current, 1) == FirstOffset(procs[..], current, offset)
    {
      var candidate := (current + offset) % procs.Length;
      if procs[candidate].burstLeft > 0 {
        return candidate;
      }
      offset := offset + 1;
    }
    return -1;
  }

  /** The length of one slice: the remaining burst, but at most one quantum. */
  function Slice(burstLeft: int, quantum: int): (amount: int)
  {
    if burstLeft < quantum then burstLeft else quantum
  }

  /** A runnable process's slice is between 1 and the quantum, and never more than its remainder. */
  lemma SliceBounds(burstLeft: int, quantum: int)
    requires burstLeft > 0 && quantum > 0
    ensures 1 <= Slice(burstLeft, quantum) <= quantum
    ensures Slice(burstLeft, quantum) <= burstLeft
    ensures Slice(burstLeft, quantum) == burstLeft <==> burstLeft <= quantum
  {
  }

  /** The time the Round-Robin loop runs `current` in one step: a slice if it is runnable, else nothing. */
  function StepAmount(s: seq<Pcb>, current: nat, quantum: int): (amount: int)
    requires current < |s|
  {
    if Runnable(s[current]) then Slice(s[current].burstLeft, quantum) else 0
  }

  /** The table after one step of the Round-Robin loop; an idle `current` is skipped. */
  function Step(s: seq<Pcb>, current: nat, quantum: int): (s': seq<Pcb>)
    requires current < |s|
  {
    if Runnable(s[current]) then Advance(s, current, StepAmount(s, current, quantum)) else s
  }

  /**
   * One step lowers the outstanding work by the time it runs, which is positive
   * exactly when `current` was runnable; afterwards `current` has a remainder
   * of 0 exactly when it was runnable with at most one quantum left.
   */
  lemma StepWork(s: seq<Pcb>, current: nat, quantum: int)
    requires current < |s| && quantum > 0
    ensures |Step(s, current, quantum)| == |s|
    ensures 0 <= StepAmount(s, current, quantum) <= quantum
    ensures StepAmount(s, current, quantum) > 0 <==> Runnable(s[current])
    ensures Work(Bursts(Step(s, current, quantum))) == Work(Bursts(s)) - StepAmount(s, current, quantum)
    ensures Runnable(s[current]) ==>
      Step(s, current, quantum)[current].burstLeft >= 0 &&
      (Step(s, current, quantum)[current].burstLeft == 0 <==> s[current].burstLeft <= quantum)
  {
    if Runnable(s[current]) {
      SliceBounds(s[current].burstLeft, quantum);
      AdvanceWork(s, current, StepAmount(s, current, quantum));
    }
  }

  /** Measure of the Round-Robin loop: twice the outstanding work, plus one while `current` is idle. */
  function RrMeasure(s: seq<Pcb>, current: nat): (m: nat)
    requires current < |s|
  {
    2 * Work(Bursts(s)) + (if Runnable(s[current]) then 0 else 1)
  }

  /**
   * What one step does to each record: pids stay, a record that was not
   * runnable is untouched, and a record that stops being runnable is `current`,
   * now at remainder 0.
   */
  lemma StepEffect(s: seq<Pcb>, current: nat, quantum: int)
    requires current < |s| && quantum > 0
    ensures |Step(s, current, quantum)| == |s|
    ensures forall i :: 0 <= i < |s| ==> Step(s, current, quantum)[i].pid == s[i].pid
    ensures forall i :: 0 <= i < |s| && !Runnable(s[i]) ==> Step(s, current, quantum)[i] == s[i]
    ensures forall i :: 0 <= i < |s| && Runnable(s[i]) && !Runnable(Step(s, current, quantum)[i]) ==>
      i == current && Step(s, current, quantum)[i].burstLeft == 0
  {
    StepWork(s, current, quantum);
  }

  /**
   * Round-Robin from process `current`: run it one slice if it is runnable,
   * then continue with the next runnable process (rr_next), until none is left.
   */
  function RrFrom(s: seq<Pcb>, current: nat, quantum: int): (r: Run)
    requires current < |s| && quantum > 0
    decreases RrMeasure(s, current)
    ensures |r.table| == |s|
  {
    var s1 := Step(s, current, quantum);
    StepWork(s, current, quantum);
    var next := NextRunnable(s1, current);
    NextRunnableSpec(s1, current);
    if next == -1 then
      Run(s1, StepAmount(s, current, quantum))
    else
      var r := RrFrom(s1, next, quantum);
      Run(r.table, StepAmount(s, current, quantum) + r.elapsed)
  }

  /**
   * What Round-Robin leaves behind: every runnable process ends at remainder 0,
   * every other record is untouched (so a process with no work never waits),
   * pids stay, and the time taken is the outstanding work.
   */
  lemma {:induction false} RrFromResult(s: seq<Pcb>, current: nat, quantum: int)
    requires current < |s| && quantum > 0
    decreases RrMeasure(s, current)
    ensures RrFrom(s, current, quantum).elapsed == Work(Bursts(s))
    ensures forall i :: 0 <= i < |s| ==> RrFrom(s, current, quantum).table[i].pid == s[i].pid
    ensures forall i :: 0 <= i < |s| && Runnable(s[i]) ==> RrFrom(s, current, quantum).table[i].burstLeft == 0
    ensures forall i :: 0 <= i < |s| && !Runnable(s[i]) ==> RrFrom(s, current, quantum).table[i] == s[i]
  {
    var s1 := Step(s, current, quantum);
    StepWork(s, current, quantum);
    StepEffect(s, current, quantum);
    var next := NextRunnable(s1, current);
    NextRunnableSpec(s1, current);
    if next == -1 {
      WorkZero(Bursts(s1));
    } else {
      RrFromResult(s1, next, quantum);
    }
  }

  /** Round-Robin over a whole table, starting at process 0. */
  function Rr(s: seq<Pcb>, quantum: int): (r: Run)
    requires |s| > 0 && quantum > 0
  {
    RrFrom(s, 0, quantum)
  }

  /**
   * rr_run's promise, for a table without negative bursts: the time taken is
   * the sum of the bursts, every process ends with remainder 0, pids stay, and
   * a process with no work is left exactly as it was (in particular it never waits).
   */
  lemma RrResult(s: seq<Pcb>, quantum: int)
    requires |s| > 0 && quantum > 0
    requires forall i :: 0 <= i < |s| ==> s[i].burstLeft >= 0
    ensures |Rr(s, quantum).table| == |s|
    ensures Rr(s, quantum).elapsed == Sum(Bursts(s))
    ensures forall i :: 0 <= i < |s| ==>
      Rr(s, quantum).table[i].burstLeft == 0 && Rr(s, quantum).table[i].pid == s[i].pid
    ensures forall i :: 0 <= i < |s| && s[i].burstLeft == 0 ==> Rr(s, quantum).table[i] == s[i]
  {
    RrFromResult(s, 0, quantum);
    WorkIsSum(Bursts(s));
  }

  /** A single process never waits under Round-Robin: the only runs are its own. */
  lemma {:induction false} RrAlone(s: seq<Pcb>, quantum: int)
    requires |s| == 1 && quantum > 0
    decreases RrMeasure(s, 0)
    ensures Rr(s, quantum).table[0].wait == s[0].wait
  {
    var s1 := Step(s, 0, quantum);
    StepWork(s, 0, quantum);
    AdvanceEffect(s, 0, StepAmount(s, 0, quantum));
    NextRunnableSpec(s1, 0);
    if NextRunnable(s1, 0) != -1 {
      RrAlone(s1, quantum);
    }
  }

  /**
   * rr_run: from process 0, repeatedly runs the current process for one slice
   * (skipping it when it has no work) and moves on to rr_next's choice, until
   * rr_next reports that all processes are done; returns the time taken. Waits
   * never decrease, and the ghost `finish` records when each process finished:
   * a process with work has then spent exactly its finishing time waiting or
   * running, and finished no later than the end.
   */
  method RrRun(procs: array<Pcb>, quantum: int) returns (time: int, ghost finish: seq<int>)
    requires procs.Length > 0 && quantum > 0
    modifies procs
    ensures procs[..] == Rr(old(procs[..]), quantum).table
    ensures time == Rr(old(procs[..]), quantum).elapsed
    ensures forall i :: 0 <= i < procs.Length ==> procs[i].wait >= old(procs[i].wait)
    ensures |finish| == procs.Length
    ensures forall i :: 0 <= i < procs.Length && Runnable(old(procs[i])) ==>
      procs[i].wait - old(procs[i].wait) + old(procs[i].burstLeft) == finish[i] <= time
  {
    ghost var s0 := procs[..];
    time := 0;
    finish := seq(procs.Length, i => 0);
    var current := 0;
    while true
      invariant 0 <= current < procs.Length
      invariant RrFrom(procs[..], current, quantum) == Run(Rr(s0, quantum).table, Rr(s0, quantum).elapsed - time)
      invariant Timeline(s0, procs[..], time, finish)
      invariant forall i :: 0 <= i < procs.Length && Runnable(s0[i]) && !Runnable(procs[i]) ==> finish[i] <= time
      invariant forall i :: 0 <= i < procs.Length ==> procs[i].wait >= s0[i].wait
      decreases RrMeasure(procs[..], current)
    {
      ghost var before := procs[..];
      if current >= 0 && procs[current].burstLeft > 0 {
        var runTime := if procs[current].burstLeft < quantum then procs[current].burstLeft else quantum;
        AdvanceTimeline(s0, procs[..], time, finish, current, runTime);
        AdvanceForward(s0, procs[..], time, finish, current, runTime);
        finish := Finish(procs[..], time, finish, current, runTime);
        RunProc(procs, current, runTime);
        time := time + runTime;
      }
      assert procs[..] == Step(before, current, quantum);
      StepWork(before, current, quantum);
      ghost var previous := current;
      current := RrNext(current, procs);
      NextRunnableSpec(procs[..], previous);
      if current == -1 {
        break;
      }
    }
    RrFromResult(s0, 0, quantum);
    assert forall i :: 0 <= i < procs.Length && Runnable(s0[i]) ==> !Runnable(procs[i]);
  }
}
