/**
 * The process table of parta.c: process control blocks, the table built from
 * burst lengths (init_procs) and the one primitive that changes it (run_proc).
 */
module Procs {
  import opened Sums

  /** One process control block (struct pcb). */
  datatype Pcb = Pcb(pid: int, burstLeft: int, wait: int)

  /** Final table and total time of a scheduler run. */
  datatype Run = Run(table: seq<Pcb>, elapsed: int)

  /** A process still has CPU time to receive. */
  predicate Runnable(p: Pcb)
  {
    p.burstLeft > 0
  }

  /** No record of the table is runnable. */
  predicate AllDone(s: seq<Pcb>)
  {
    forall i :: 0 <= i < |s| ==> !Runnable(s[i])
  }

  /** The remaining bursts of a table, in table order. */
  function Bursts(s: seq<Pcb>): (b: seq<int>)
  {
    seq(|s|, i requires 0 <= i < |s| => s[i].burstLeft)
  }

  /** The table built from a list of burst lengths. */
  function InitTable(bursts: seq<int>): (table: seq<Pcb>)
  {
    seq(|bursts|, i requires 0 <= i < |bursts| => Pcb(i, bursts[i], 0))
  }

  /**
   * The table after running process `current` for `amount` time units: its
   * remaining burst drops by `amount`, and every other record that was still
   * runnable waits `amount` more.
   */
  function Advance(s: seq<Pcb>, current: nat, amount: int): (s': seq<Pcb>)
    requires current < |s|
  {
    seq(|s|, i requires 0 <= i < |s| =>
      if i == current then s[i].(burstLeft := s[i].burstLeft - amount)
      else if Runnable(s[i]) then s[i].(wait := s[i].wait + amount)
      else s[i])
  }

  /** init_procs: a fresh table whose record i is process i with burst bursts[i] and no wait. */
  method InitProcs(bursts: seq<int>) returns (procs: array<Pcb>)
    ensures fresh(procs)
    ensures procs[..] == InitTable(bursts)
    ensures procs.Length == |bursts|
    ensures forall i :: 0 <= i < |bursts| ==> procs[i].pid == i && procs[i].burstLeft == bursts[i] && procs[i].wait == 0
  {
    procs := new Pcb[|bursts|];
    for i := 0 to |bursts|
      invariant forall j :: 0 <= j < i ==> procs[j] == Pcb(j, bursts[j], 0)
    {
      procs[i] := Pcb(i, bursts[i], 0);
    }
  }

  /** run_proc: runs process `current` for `amount` time units, in place. */
  method RunProc(procs: array<Pcb>, current: int, amount: int)
    requires 0 <= current < procs.Length
    modifies procs
    ensures procs[..] == Advance(old(procs[..]), current, amount)
  {
    procs[current] := procs[current].(burstLeft := procs[current].burstLeft - amount);
    for i := 0 to procs.Length
      invariant forall j :: 0 <= j < i ==> procs[j] == Advance(old(procs[..]), current, amount)[j]
      invariant procs[current] == Advance(old(procs[..]), current, amount)[current]
      invariant forall j :: i <= j < procs.Length && j != current ==> procs[j] == old(procs[j])
    {
      if i != current && procs[i].burstLeft > 0 {
        procs[i] := procs[i].(wait := procs[i].wait + amount);
      }
    }
  }

  /**
   * What one run does to each record: only the current remaining burst drops,
   * by exactly `amount`; no pid changes; the current wait is untouched; a
   * record other than the current one waits `amount` more exactly when it is
   * still runnable, so a finished record does not change at all.
   */
  lemma AdvanceEffect(s: seq<Pcb>, current: nat, amount: int)
    requires current < |s|
    ensures |Advance(s, current, amount)| == |s|
    ensures Advance(s, current, amount)[current].burstLeft == s[current].burstLeft - amount
    ensures Advance(s, current, amount)[current].wait == s[current].wait
    ensures forall i :: 0 <= i < |s| ==> Advance(s, current, amount)[i].pid == s[i].pid
    ensures forall i :: 0 <= i < |s| && i != current ==>
      Advance(s, current, amount)[i].burstLeft == s[i].burstLeft &&
      Advance(s, current, amount)[i].wait == s[i].wait + (if Runnable(s[i]) then amount else 0)
    ensures forall i :: 0 <= i < |s| && i != current && !Runnable(s[i]) ==> Advance(s, current, amount)[i] == s[i]
  {
  }

  /** A run changes the remaining bursts at the current index only. */
  lemma AdvanceBursts(s: seq<Pcb>, current: nat, amount: int)
    requires current < |s|
    ensures Bursts(Advance(s, current, amount)) == Bursts(s)[current := s[current].burstLeft - amount]
  {
  }

  /** Running a process for no time leaves the table as it was. */
  lemma AdvanceZero(s: seq<Pcb>, current: nat)
    requires current < |s|
    ensures Advance(s, current, 0) == s
  {
    assert forall i :: 0 <= i < |s| ==> Advance(s, current, 0)[i] == s[i];
  }

  /** A run of a runnable process for 0 <= amount <= its remainder lowers the outstanding work by `amount`. */
  lemma AdvanceWork(s: seq<Pcb>, current: nat, amount: int)
    requires current < |s|
    requires 0 <= amount <= s[current].burstLeft
    ensures Work(Bursts(Advance(s, current, amount))) == Work(Bursts(s)) - amount
  {
    AdvanceBursts(s, current, amount);
    WorkUpdate(Bursts(s), current, s[current].burstLeft - amount);
  }

  /** Time process i has spent in the system since s0: time waited plus time run. */
  function Elapsed(s0: seq<Pcb>, s: seq<Pcb>, i: nat): (e: int)
    requires i < |s0| && i < |s|
  {
    (s[i].wait - s0[i].wait) + (s0[i].burstLeft - s[i].burstLeft)
  }

  /**
   * Time conservation at time t since s0: every process that is still runnable
   * has spent exactly t time units waiting or running, and every process that
   * was runnable in s0 and has finished has spent exactly its finishing time
   * finish[i] waiting or running, and has been charged nothing since.
   */
  ghost predicate Timeline(s0: seq<Pcb>, s: seq<Pcb>, t: int, finish: seq<int>)
  {
    |s| == |s0| && |finish| == |s0| &&
    (forall i :: 0 <= i < |s| && Runnable(s[i]) ==> Elapsed(s0, s, i) == t) &&
    (forall i :: 0 <= i < |s| && Runnable(s0[i]) && !Runnable(s[i]) ==> Elapsed(s0, s, i) == finish[i])
  }

  /** The finishing times after a run: `current` finishes at t + amount when this run empties it. */
  function Finish(s: seq<Pcb>, t: int, finish: seq<int>, current: nat, amount: int): (f: seq<int>)
    requires current < |s| && |finish| == |s|
  {
    if Runnable(s[current]) && s[current].burstLeft - amount <= 0 then finish[current := t + amount] else finish
  }

  /**
   * One run keeps time conserved: runnable processes advance to t + amount, a
   * process that this run empties has spent exactly its finishing time
   * t + amount, and finished processes keep their accounts. The run is either
   * of a runnable process, or, as FCFS does, of a never-runnable process for
   * its whole (non-positive) remainder.
   */
  lemma AdvanceTimeline(s0: seq<Pcb>, s: seq<Pcb>, t: int, finish: seq<int>, current: nat, amount: int)
    requires Timeline(s0, s, t, finish) && current < |s|
    requires Runnable(s[current]) || (!Runnable(s0[current]) && amount == s[current].burstLeft)
    ensures Timeline(s0, Advance(s, current, amount), t + amount, Finish(s, t, finish, current, amount))
  {
    var s' := Advance(s, current, amount);
    var f := Finish(s, t, finish, current, amount);
    forall i | 0 <= i < |s'| && Runnable(s'[i])
      ensures Elapsed(s0, s', i) == t + amount
    {
      assert Runnable(s[i]);
    }
    forall i | 0 <= i < |s'| && Runnable(s0[i]) && !Runnable(s'[i])
      ensures Elapsed(s0, s', i) == f[i]
    {
    }
  }

  /**
   * A run of a runnable process for a non-negative amount moves time forward:
   * no wait decreases, and every finishing time stays at or before the clock.
   */
  lemma AdvanceForward(s0: seq<Pcb>, s: seq<Pcb>, t: int, finish: seq<int>, current: nat, amount: int)
    requires |s| == |s0| == |finish| && current < |s|
    requires Runnable(s[current]) && 0 <= amount
    requires forall i :: 0 <= i < |s| ==> s[i].wait >= s0[i].wait
    requires forall i :: 0 <= i < |s| && Runnable(s0[i]) && !Runnable(s[i]) ==> finish[i] <= t
    ensures forall i :: 0 <= i < |s| ==> Advance(s, current, amount)[i].wait >= s0[i].wait
    ensures forall i :: 0 <= i < |s| && Runnable(s0[i]) && !Runnable(Advance(s, current, amount)[i]) ==>
      Finish(s, t, finish, current, amount)[i] <= t + amount
  {
  }
}
