/** Sums over sequences of burst lengths. */
module Sums {

  /** The part of a remaining burst that still has to run: negative remainders count as none. */
  function Pos(x: int): (p: nat)
  {
    if x > 0 then x else 0
  }

  /** Plain sum of a sequence of integers. */
  function Sum(xs: seq<int>): (total: int)
  {
    if xs == [] then 0 else xs[0] + Sum(xs[1..])
  }

  /** Total CPU time still owed to the processes whose remainders are listed in xs. */
  function Work(xs: seq<int>): (w: nat)
  {
    if xs == [] then 0 else Pos(xs[0]) + Work(xs[1..])
  }

  /** Changing one remainder changes the outstanding work by the difference of the positive parts. */
  lemma {:induction false} WorkUpdate(xs: seq<int>, i: nat, v: int)
    requires i < |xs|
    ensures Work(xs[i := v]) == Work(xs) - Pos(xs[i]) + Pos(v)
  {
    if i > 0 {
      assert xs[i := v][1..] == xs[1..][i - 1 := v];
      WorkUpdate(xs[1..], i - 1, v);
    }
  }

  /** Outstanding work is zero exactly when no remainder is positive. */
  lemma {:induction false} WorkZero(xs: seq<int>)
    ensures Work(xs) == 0 <==> forall i :: 0 <= i < |xs| ==> xs[i] <= 0
  {
    if xs != [] {
      WorkZero(xs[1..]);
      assert forall i :: 1 <= i < |xs| ==> xs[i] == xs[1..][i - 1];
    }
  }

  /** With no negative remainders, the outstanding work is the plain sum. */
  lemma {:induction false} WorkIsSum(xs: seq<int>)
    requires forall i :: 0 <= i < |xs| ==> xs[i] >= 0
    ensures Work(xs) == Sum(xs)
  {
    if xs != [] {
      assert forall i :: 0 <= i < |xs[1..]| ==> xs[1..][i] == xs[i + 1];
      WorkIsSum(xs[1..]);
    }
  }

  /** A prefix one longer adds the next element to the sum. */
  lemma {:induction false} SumPrefix(xs: seq<int>, i: nat)
    requires i < |xs|
    ensures Sum(xs[..i + 1]) == Sum(xs[..i]) + xs[i]
  {
    if i > 0 {
      assert xs[..i + 1][1..] == xs[1..][..i];
      assert xs[..i][1..] == xs[1..][..i - 1];
      SumPrefix(xs[1..], i - 1);
    }
  }
}
