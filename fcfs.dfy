/** First-Come-First-Served scheduling (fcfs_run in parta.c). */
module FirstComeFirstServed {
  import opened Sums
  import opened Procs

  /** FCFS from index k on: each of processes k, k+1, ... runs its whole remainder, in index order. */
  function FcfsFrom(s: seq<Pcb>, k: nat): (r: Run)
    requires k <= |s|
    decreases |s| - k
  {
    if k == |s| then Run(s, 0)
    else
      var burst := s[k].burstLeft;
      var r := FcfsFrom(Advance(s, k, burst), k + 1);
      Run(r.table, burst + r.elapsed)
  }

  /** FCFS over a whole table. */
  function Fcfs(s: seq<Pcb>): (r: Run)
  {
    FcfsFrom(s, 0)
  }

  /**
   * FCFS from index k, in closed form. Every process from k on ends with no
   * remaining burst and, if it was runnable, has waited for the bursts of the
   * processes k..i-1; a process before k keeps its remainder and, if runnable,
   * waits for all the bursts from k on. The total time is the sum of those bursts.
   */
  lemma {:induction false} FcfsFromClosedForm(s: seq<Pcb>, k: nat)
    requires k <= |s|
    decreases |s| - k
    ensures |FcfsFrom(s, k).table| == |s|
    ensures FcfsFrom(s, k).elapsed == Sum(Bursts(s)[k..])
    ensures forall i :: 0 <= i < k ==>
      FcfsFrom(s, k).table[i] == s[i].(wait := s[i].wait + (if Runnable(s[i]) then Sum(Bursts(s)[k..]) else 0))
    ensures forall i :: k <= i < |s| ==>
      FcfsFrom(s, k).table[i] == s[i].(burstLeft := 0, wait := s[i].wait + (if Runnable(s[i]) then Sum(Bursts(s)[k..i]) else 0))
  {
    if k < |s| {
      var b := Bursts(s);
      var s1 := Advance(s, k, s[k].burstLeft);
      FcfsFromClosedForm(s1, k + 1);
      AdvanceBursts(s, k, s[k].burstLeft);
      var b1 := Bursts(s1);
      assert b1[k + 1..] == b[k + 1..];
      assert b[k..][1..] == b[k + 1..];
      forall i | k < i < |s|
        ensures b1[k + 1..i] == b[k + 1..i] && b[k..i][1..] == b[k + 1..i]
      {
      }
    }
  }

  /**
   * fcfs_run's promise: all processes end with no remaining burst, the time is
   * the sum of the bursts, and a runnable process has waited exactly for the
   * bursts of the processes before it; a process with no work never waits.
   */
  lemma FcfsResult(s: seq<Pcb>)
    ensures |Fcfs(s).table| == |s|
    ensures Fcfs(s).elapsed == Sum(Bursts(s))
    ensures forall i :: 0 <= i < |s| ==>
      Fcfs(s).table[i] == s[i].(burstLeft := 0, wait := s[i].wait + (if Runnable(s[i]) then Sum(Bursts(s)[..i]) else 0))
  {
    FcfsFromClosedForm(s, 0);
    assert Bursts(s)[0..] == Bursts(s);
    forall i | 0 <= i < |s| ensures Bursts(s)[0..i] == Bursts(s)[..i] { }
  }

  /** Processes whose remaining bursts are all zero are skipped by FCFS without effect. */
  lemma {:induction false} FcfsSkip(s: seq<Pcb>, k: nat, j: nat)
    requires k <= j <= |s|
    requires forall i :: k <= i < j ==> s[i].burstLeft == 0
    decreases j - k
    ensures FcfsFrom(s, k) == FcfsFrom(s, j)
  {
    if k < j {
      AdvanceZero(s, k);
      FcfsSkip(s, k + 1, j);
    }
  }

  /**
   * fcfs_run: runs every process to completion in index order and returns the
   * time taken. The ghost `finish` records when each process finished: a
   * process with work has then spent exactly its finishing time waiting or
   * running, and that time is the sum of its own burst and those before it.
   */
  method FcfsRun(procs: array<Pcb>) returns (time: int, ghost finish: seq<int>)
    modifies procs
    ensures procs[..] == Fcfs(old(procs[..])).table
    ensures time == Fcfs(old(procs[..])).elapsed
    ensures |finish| == procs.Length
    ensures forall i :: 0 <= i < procs.Length && Runnable(old(procs[i])) ==>
      procs[i].wait - old(procs[i].wait) + old(procs[i].burstLeft) == finish[i] == Sum(Bursts(old(procs[..]))[..i + 1])
  {
    ghost var s0 := procs[..];
    time := 0;
    finish := seq(procs.Length, i => 0);
    for i := 0 to procs.Length
      invariant FcfsFrom(procs[..], i) == Run(Fcfs(s0).table, Fcfs(s0).elapsed - time)
      invariant Timeline(s0, procs[..], time, finish)
      invariant forall j :: i <= j < procs.Length ==> procs[j].burstLeft == s0[j].burstLeft
    {
      var burstTime := procs[i].burstLeft;
      AdvanceTimeline(s0, procs[..], time, finish, i, burstTime);
      finish := Finish(procs[..], time, finish, i, burstTime);
      RunProc(procs, i, burstTime);
      time := time + burstTime;
    }
    FcfsResult(s0);
    forall i | 0 <= i < procs.Length && Runnable(s0[i])
      ensures finish[i] == Sum(Bursts(s0)[..i + 1])
    {
      assert Elapsed(s0, procs[..], i) == finish[i];
      SumPrefix(Bursts(s0), i);
    }
  }
}
