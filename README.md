# CPU-scheduling simulator core, modelled in Dafny

This project models the scheduling engine of a small CPU-scheduling simulator
written in C (`parta.c`). A table of process control blocks (`struct pcb`:
`pid`, `burst_left`, `wait`) is built from a list of burst lengths. After that it
is changed in place by one primitive, `run_proc`. That primitive runs the
current process for some time and charges the same time as waiting to every
other process that still has work. Two schedulers drive it:

- First-Come-First-Served (`fcfs_run`) runs each process to completion in index order.
- Round-Robin (`rr_run`) runs processes in slices of at most one quantum. It picks
  the next process with `rr_next`, a circular scan that starts one place after the
  current process.

Layout:

- `sums.dfy` (module `Sums`): sums of burst lengths. `Work` is the outstanding CPU
  time and counts only positive remainders. It is the termination measure of Round-Robin.
- `procs.dfy` (module `Procs`): the `Pcb` datatype, the table as `array<Pcb>`, and
  `Run`, the final table and total time of a scheduler run.
  `InitProcs` models `init_procs` and `RunProc` models `run_proc`. `Advance` is the
  function on `seq<Pcb>` that `RunProc` is proved against. `Timeline` is the
  time-conservation invariant, over both running and finished processes.
- `fcfs.dfy` (module `FirstComeFirstServed`): `FcfsFrom`/`Fcfs` are the functional
  model of `fcfs_run`. `FcfsRun` is the in-place loop, proved equal to it. The
  closed form of the waits and the total time is proved about the functional model.
- `round_robin.dfy` (module `RoundRobin`): `FirstOffset`/`NextRunnable` are the
  functional model of `rr_next`, and `RrNext` is its two-loop method. `RrFrom`/`Rr`
  are the functional model of `rr_run`, and `RrRun` is its `while (true)` loop.
- `comparison.dfy` (module `Comparison`): Round-Robin equals FCFS when no burst
  exceeds the quantum. It also holds the two schedules of bursts 5, 3, 8, traced in full.

The table length `plen` of the C functions is the array's `Length`. C `int`s are
unbounded integers here. The C `%` in `rr_next` is applied only to non-negative
operands, so it agrees with Dafny's `%`.

## Model

| member | source | states |
|---|---|---|
| `Procs.InitProcs` | parta.c:9-24 | returns a fresh table with one record per burst; record i has pid i, burst `bursts[i]` and wait 0 |
| `Procs.RunProc` | parta.c:44-54 | the table after the call is `Advance` of the table before it |
| `Procs.AdvanceEffect` | parta.c:44-54 | only the current remaining burst changes, by exactly `amount`; no pid changes; the current wait is untouched; any other record gains `amount` of wait exactly when it is runnable, so a finished record does not change |
| `Procs.AdvanceBursts` | parta.c:46 | the remaining bursts change at the current index only |
| `Procs.AdvanceZero` | parta.c:44-54 | a run of length 0 leaves the table unchanged (this is how FCFS passes over a zero burst) |
| `Procs.AdvanceWork` | parta.c:44-46 | running a runnable process for `0 <= amount <= burst_left` lowers the outstanding work by exactly `amount` |
| `Procs.AdvanceTimeline` | parta.c:44-54 | one run keeps time conservation: every still-runnable process has waited plus run exactly the elapsed time; a process this run empties has waited plus run exactly the time at which it finished; a finished process keeps its account, because it is charged no wait |
| `Procs.AdvanceForward` | parta.c:44-53 | a run of a runnable process for a non-negative amount never lowers a wait, and keeps every finishing time at or before the clock |
| `FirstComeFirstServed.FcfsFromClosedForm` | parta.c:61-76 | FCFS from index k: processes from k end at remainder 0 and, if runnable, have waited the sum of the bursts k..i-1; earlier records keep their remainder and, if runnable, wait all bursts from k; the time is the sum of those bursts |
| `FirstComeFirstServed.FcfsResult` | parta.c:56-76 | `fcfs_run` returns the sum of the bursts and leaves every remainder at 0; a runnable process waits exactly the sum of the bursts before it; a process with no work gains no wait |
| `FirstComeFirstServed.FcfsSkip` | parta.c:65-73 | FCFS passes over processes whose remaining bursts are 0 without effect |
| `FirstComeFirstServed.FcfsRun` | parta.c:61-76 | the in-place loop leaves the table and returns the time given by the functional model `Fcfs`; its loop keeps `Timeline`, so each process with work has waited plus run exactly its finishing time, which is the sum of its own burst and the bursts before it |
| `RoundRobin.FirstOffset` | parta.c:99-105 | the scan returns the smallest offset from k on whose record is runnable, or the table length plus one (one past the last offset) when there is none |
| `RoundRobin.NextRunnableSpec` | parta.c:86-109 | `rr_next` returns -1 exactly when no record is runnable; otherwise it returns a runnable index in `[0, plen)`, namely `(current + d) % plen` for the smallest `d` in `1..plen` that reaches a runnable record |
| `RoundRobin.NextRunnableAlone` | parta.c:84-105 | when `current` is the only runnable process, the scan wraps all the way round and returns `current` |
| `RoundRobin.RrNext` | parta.c:86-109 | the method with the `all_done` flag and the early-return scan computes exactly `NextRunnable`; it reads the table and does not change it |
| `RoundRobin.SliceBounds` | parta.c:124-125 | a runnable process's slice `min(burst_left, quantum)` is in `1..quantum`, is at most its remainder, and equals it exactly when the remainder fits in one quantum |
| `RoundRobin.StepWork` | parta.c:122-132 | one loop step runs a positive amount exactly when `current` is runnable and lowers the outstanding work by that amount; this is the termination argument of `rr_run` |
| `RoundRobin.StepEffect` | parta.c:122-132 | one loop step keeps pids, leaves non-runnable records untouched, and the only record that can stop being runnable is `current`, at remainder 0 |
| `RoundRobin.RrFromResult` | parta.c:115-144 | Round-Robin takes exactly the outstanding work in time, ends every runnable process at remainder 0, keeps pids, and leaves records with no work untouched |
| `RoundRobin.RrResult` | parta.c:111-144 | for non-negative bursts `rr_run` returns the sum of the bursts, every remainder ends at 0, and a process with burst 0 is left as it was, so it never waits |
| `RoundRobin.RrAlone` | parta.c:115-144 | a single process never waits under Round-Robin |
| `RoundRobin.RrRun` | parta.c:115-144 | the in-place loop leaves the table and returns the time given by the functional model `Rr`, decreasing the measure `RrMeasure`; no wait decreases; its loop keeps `Timeline`, whose exact equation (waited plus run equals the time of the slice that emptied the process) is a loop invariant only; the contract exports the ghost `finish` with waited plus run `== finish[i] <= time`, that is, a bound by the returned time |
| `Comparison.StepCompletes` | parta.c:124-128 | a process whose burst is at most one quantum runs to completion in its one slice, exactly as an FCFS step |
| `Comparison.NextRunnableAfter` | parta.c:100-105 | when no record up to `current` is runnable, `rr_next` returns the first runnable index after `current`, with no wrap-around |
| `Comparison.RrFromIsFcfsFrom` | parta.c:115-144 | with all bursts in `0..quantum` and all earlier processes finished, Round-Robin from `current` gives the same table and time as FCFS from `current` |
| `Comparison.RrIsFcfs` | parta.c:61-144 | when no burst exceeds the quantum, Round-Robin and FCFS end with identical tables (so identical waits) and identical time |
| `Comparison.FcfsTrace` | parta.c:61-76 | FCFS on bursts 5, 3, 8 gives waits 0, 5, 8 and time 16 |
| `Comparison.RrTrace` | parta.c:86-144 | Round-Robin with quantum 4 on bursts 5, 3, 8 gives waits 7, 4, 8 and time 16 |

## Left out

- `parta_main.c` is not part of this model. It parses arguments with `atoi`, prints with `printf`, allocates and frees, and averages the waits in floating point.
- `printall` (parta.c:30-36) is not modelled: it only prints.
- `Procs.InitProcs` does not model a failing `malloc` (parta.c:11-14). The table is always a fresh array.
- C `int` overflow of `current_time`, `wait` and `burst_left` is not modelled: all integers are unbounded.
- `RoundRobin.RrRun` and `RoundRobin.Rr` require `quantum > 0` and at least one process. The C code does not check either. With `plen == 0` it reads `procs[0]`, and with `quantum <= 0` it does not terminate once some process has work.
- `RoundRobin.RrNext` requires `0 <= current < plen`. This is the only way `rr_run` calls it. The C scan would also accept a larger `current`.
- `Procs.RunProc` has no precondition on `amount`. The C code checks nothing either, and the model states the exact effect for any amount. `rr_run` passes `1 <= amount <= burst_left`; `fcfs_run` passes `amount == burst_left`, which is negative for a negative burst.
- Negative bursts are not excluded where the code copes with them. FCFS's closed form holds for any bursts. Round-Robin never runs a non-positive remainder, so `RrFromResult` holds for any bursts.
- `RoundRobin.RrResult` and `Comparison.RrIsFcfs` are stated for non-negative bursts only. With a negative burst, FCFS runs a negative amount and the two schedulers differ.
- The source records no finishing times. The model keeps them as a ghost out-parameter `finish` of `FcfsRun` and `RrRun`: the clock value right after the slice that empties a process. For Round-Robin the contract bounds them only by the returned time, because they have no closed form. The functional model `Rr` has no finishing-time counterpart.
