/**
 * The Collatz step count `collatz(n)` (Assignment2/Collatz_Code/
 * sequential_collatz.cpp:10-18, repeated in parallel_collatz.cpp:53-60) and
 * the sequential per-range maximum (sequential_collatz.cpp:64-80).
 *
 * Whether every start reaches 1 is the open Collatz conjecture, so the
 * count is not a total function here: `Iterate` gives the value after `k`
 * steps, `StepsAre(n, s)` says the loop stops after exactly `s` steps, and
 * the loop itself is a method that may only be called on a start known to
 * reach 1.
 */
module CollatzSteps {
  import opened Numerals
  import opened CollatzMax

  /** One step: halve an even value, else `3 * n + 1` in 64-bit unsigned arithmetic. */
  function Next(n: nat): nat {
    if n % 2 == 0 then n / 2 else (3 * n + 1) % WORD
  }

  /** The value reached from `n` after `k` steps. */
  function Iterate(n: nat, k: nat): nat
    decreases k
  {
    if k == 0 then n else Iterate(Next(n), k - 1)
  }

  /** The sequence from `n` arrives at 1 at some point. */
  ghost predicate Reaches(n: nat) {
    exists k :: Iterate(n, k) == 1
  }

  /** The loop stops after exactly `s` steps: `s` is the first arrival at 1. */
  ghost predicate StepsAre(n: nat, s: nat) {
    Iterate(n, s) == 1 && forall k :: 0 <= k < s ==> Iterate(n, k) != 1
  }

  /** One more step applies `Next` to the value reached so far. */
  lemma {:induction false} IterateSucc(n: nat, k: nat)
    ensures Iterate(n, k + 1) == Next(Iterate(n, k))
    decreases k
  {
    if k > 0 {
      IterateSucc(Next(n), k - 1);
    }
  }

  /** A start that reaches 1 has a first arrival. */
  lemma {:induction false} FirstArrival(n: nat, k: nat)
    requires Iterate(n, k) == 1
    ensures exists s :: StepsAre(n, s)
    decreases k
  {
    if forall j :: 0 <= j < k ==> Iterate(n, j) != 1 {
      assert StepsAre(n, k);
    } else {
      var j :| 0 <= j < k && Iterate(n, j) == 1;
      FirstArrival(n, j);
    }
  }

  /** The first arrival is unique, so the step count is well defined. */
  lemma StepsUnique(n: nat, a: nat, b: nat)
    requires StepsAre(n, a) && StepsAre(n, b)
    ensures a == b
  {
  }

  /** `collatz(n)` as a value, for starts that reach 1. */
  ghost function Collatz(n: nat): (s: nat)
    requires Reaches(n)
    ensures StepsAre(n, s)
  {
    var k :| Iterate(n, k) == 1;
    FirstArrival(n, k);
    var s :| StepsAre(n, s);
    s
  }

  /** `collatz(1) == 0`: the loop does not run at all. */
  lemma StepsOfOne(s: nat)
    ensures StepsAre(1, s) <==> s == 0
  {
    if s > 0 {
      assert Iterate(1, 0) == 1;
    }
  }

  /**
   * The recurrence: for `n != 1`, `collatz(n) == 1 + collatz(Next(n))`, in
   * both directions.
   */
  lemma StepsRecurrence(n: nat, s: nat)
    requires n != 1
    ensures StepsAre(n, s) <==> s >= 1 && StepsAre(Next(n), s - 1)
  {
    if StepsAre(n, s) {
      assert s >= 1 by {
        assert Iterate(n, 0) == n;
      }
      forall k | 0 <= k < s - 1
        ensures Iterate(Next(n), k) != 1
      {
        assert Iterate(n, k + 1) == Iterate(Next(n), k);
      }
    }
    if s >= 1 && StepsAre(Next(n), s - 1) {
      forall k | 0 <= k < s
        ensures Iterate(n, k) != 1
      {
        if k > 0 {
          assert Iterate(n, k) == Iterate(Next(n), k - 1);
        }
      }
    }
  }

  /** Zero is even and halves to itself: the sequence from 0 stays at 0. */
  lemma {:induction false} ZeroStays(k: nat)
    ensures Iterate(0, k) == 0
    decreases k
  {
    if k > 0 {
      ZeroStays(k - 1);
    }
  }

  /** Hence `collatz(0)` never returns. */
  lemma ZeroNeverReachesOne()
    ensures !Reaches(0)
  {
    if Reaches(0) {
      var k :| Iterate(0, k) == 1;
      ZeroStays(k);
    }
  }

  /** `collatz(n)`: applies `Next` until the value is 1 and counts the steps. */
  method Steps(n: nat) returns (steps: nat)
    requires Reaches(n)
    ensures StepsAre(n, steps)
  {
    ghost var bound: nat :| Iterate(n, bound) == 1;
    var m := n;
    steps := 0;
    while m != 1
      invariant m == Iterate(n, steps) && steps <= bound
      invariant forall k :: 0 <= k < steps ==> Iterate(n, k) != 1
      decreases bound - steps
    {
      IterateSucc(n, steps);
      m := Next(m);
      steps := steps + 1;
    }
  }

  /** Every start of `[start, end]` reaches 1. */
  ghost predicate AllReach(start: nat, end: nat) {
    forall i :: start <= i <= end ==> Reaches(i)
  }

  /**
   * `m` is the largest step count over `[start, end]`, and 0 (the initial
   * value of `maximum[j]`) when the range is empty.
   */
  ghost predicate IsRangeMax(start: nat, end: nat, m: nat)
    requires AllReach(start, end)
  {
    (forall i :: start <= i <= end ==> Collatz(i) <= m)
    && (start <= end ==> exists i :: start <= i <= end && Collatz(i) == m)
    && (start > end ==> m == 0)
  }

  /** The inner loop of the sequential driver: the maximum of `collatz(i)` over `[start, end]`. */
  method RangeMax(start: nat, end: nat) returns (m: nat)
    requires AllReach(start, end)
    ensures IsRangeMax(start, end, m)
  {
    m := 0;
    var i := start;
    while i <= end
      invariant start <= i && (i <= end + 1 || i == start)
      invariant forall k :: start <= k < i ==> Collatz(k) <= m
      invariant i > start ==> exists k :: start <= k < i && Collatz(k) == m
      invariant i == start ==> m == 0
    {
      var s := Steps(i);
      StepsUnique(i, s, Collatz(i));
      m := Max(m, s);
      i := i + 1;
    }
  }

  /** The outer loop: one maximum per range, in the order of the ranges. */
  method SequentialMaxima(ranges: seq<(nat, nat)>) returns (maximum: seq<nat>)
    requires forall j :: 0 <= j < |ranges| ==> AllReach(ranges[j].0, ranges[j].1)
    ensures |maximum| == |ranges|
    ensures forall j :: 0 <= j < |ranges| ==> IsRangeMax(ranges[j].0, ranges[j].1, maximum[j])
  {
    maximum := [];
    var j := 0;
    while j < |ranges|
      invariant j <= |ranges| && |maximum| == j
      invariant forall q :: 0 <= q < j ==> IsRangeMax(ranges[q].0, ranges[q].1, maximum[q])
    {
      var m := RangeMax(ranges[j].0, ranges[j].1);
      maximum := maximum + [m];
      j := j + 1;
    }
  }
}
