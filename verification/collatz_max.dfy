/**
 * Running maxima as the Collatz drivers compute them
 * (Assignment2/Collatz_Code/parallel_collatz.cpp:72-80 and 96-104): each
 * thread folds `std::max` over the indices it visits into `local_max`,
 * starting from 0, then folds its `local_max` into the shared
 * `max_steps_per_range[j]` under the mutex.  Threads take the mutex in an
 * order nobody controls, so the results are stated for every order.
 *
 * The step count enters as a function parameter `f`: it is `collatz` on
 * starts that reach 1 (see CollatzSteps), but nothing here depends on that.
 */
module CollatzMax {

  function Max(a: nat, b: nat): nat {
    if a >= b then a else b
  }

  /**
   * `r` is what a max-fold from 0 over the indices `s` produces: an upper
   * bound of `f` on `s` that `f` attains, or 0 when `s` is empty.
   */
  ghost predicate IsMax(f: nat -> nat, s: set<nat>, r: nat) {
    (forall i :: i in s ==> f(i) <= r)
    && (s == {} ==> r == 0)
    && (s != {} ==> exists i :: i in s && f(i) == r)
  }

  /** The maximum over a set is unique. */
  lemma IsMaxUnique(f: nat -> nat, s: set<nat>, a: nat, b: nat)
    requires IsMax(f, s, a) && IsMax(f, s, b)
    ensures a == b
  {
    if s != {} {
      var i :| i in s && f(i) == a;
      var j :| j in s && f(j) == b;
      assert f(j) <= a && f(i) <= b;
    }
  }

  /** The maximum over a union is the larger of the two maxima. */
  lemma MaxUnion(f: nat -> nat, a: set<nat>, b: set<nat>, x: nat, y: nat)
    requires IsMax(f, a, x) && IsMax(f, b, y)
    ensures IsMax(f, a + b, Max(x, y))
  {
    if a != {} && (x >= y || b == {}) {
      var i :| i in a && f(i) == x;
      assert i in a + b;
    } else if b != {} {
      var i :| i in b && f(i) == y;
      assert i in a + b;
    }
  }

  /** The indices a sequence lists. */
  function Elems(xs: seq<nat>): set<nat> {
    set i | i in xs
  }

  /** Appending an index adds it to the set. */
  lemma ElemsSnoc(xs: seq<nat>, x: nat)
    ensures Elems(xs + [x]) == Elems(xs) + {x}
  {
    assert forall i :: i in xs + [x] <==> i in xs || i == x;
  }

  /** A thread's `local_max` loop: `local_max = max(local_max, f(i))` for each visited `i`, from 0. */
  function SeqMax(f: nat -> nat, xs: seq<nat>): (r: nat)
    ensures IsMax(f, Elems(xs), r)
    decreases |xs|
  {
    if |xs| == 0 then 0
    else
      var p := xs[..|xs| - 1];
      var x := xs[|xs| - 1];
      var r := Max(SeqMax(f, p), f(x));
      assert xs == p + [x];
      ElemsSnoc(p, x);
      MaxUnion(f, Elems(p), {x}, SeqMax(f, p), f(x));
      r
  }

  /**
   * The shared maximum after the threads' updates `ms`, in the order they
   * took the mutex: `max_steps_per_range[j] = max(max_steps_per_range[j], m)`
   * from 0.
   */
  function Fold(ms: seq<nat>): (r: nat)
    ensures forall k :: 0 <= k < |ms| ==> ms[k] <= r
    ensures |ms| == 0 ==> r == 0
    ensures |ms| > 0 ==> r in ms
    decreases |ms|
  {
    if |ms| == 0 then 0 else Max(Fold(ms[..|ms| - 1]), ms[|ms| - 1])
  }

  /** The order in which threads take the mutex does not change the result. */
  lemma FoldOrderFree(ms: seq<nat>, ns: seq<nat>)
    requires forall x :: x in ms <==> x in ns
    ensures Fold(ms) == Fold(ns)
  {
    if |ms| > 0 {
      assert ms[0] in ns;
      var a, b := Fold(ms), Fold(ns);
      var i :| 0 <= i < |ms| && ms[i] == a;
      var j :| 0 <= j < |ns| && ns[j] == b;
      assert ms[i] in ns && ns[j] in ms;
    }
  }

  /**
   * The thread ids `run` starts (parallel_collatz.cpp:116 and 126),
   * `for (int i = 0; i < num_threads; ++i)`: none unless `num_threads > 0`.
   */
  function Spawned(numThreads: int): (ids: seq<nat>)
    ensures |ids| == if numThreads > 0 then numThreads else 0
    ensures forall k :: 0 <= k < |ids| ==> ids[k] == k
    decreases if numThreads > 0 then numThreads else 0
  {
    if numThreads <= 0 then [] else Spawned(numThreads - 1) + [numThreads - 1]
  }

  /** The union of the index sets of several threads. */
  function Union(work: seq<set<nat>>): set<nat>
    decreases |work|
  {
    if |work| == 0 then {} else Union(work[..|work| - 1]) + work[|work| - 1]
  }

  /** An index is in the union exactly when some thread's set holds it. */
  lemma {:induction false} UnionMember(work: seq<set<nat>>, x: nat)
    ensures x in Union(work) <==> exists k :: 0 <= k < |work| && x in work[k]
    decreases |work|
  {
    if |work| > 0 {
      var p := work[..|work| - 1];
      UnionMember(p, x);
      if exists k :: 0 <= k < |p| && x in p[k] {
        var k :| 0 <= k < |p| && x in p[k];
        assert x in work[k];
      }
    }
  }

  /**
   * Folding the threads' maxima, in any order, gives the maximum over the
   * union of what they visited.
   */
  lemma {:induction false} ThreadsMax(f: nat -> nat, work: seq<set<nat>>, locals: seq<nat>)
    requires |locals| == |work|
    requires forall k :: 0 <= k < |work| ==> IsMax(f, work[k], locals[k])
    ensures IsMax(f, Union(work), Fold(locals))
    decreases |work|
  {
    if |work| > 0 {
      var n := |work| - 1;
      var w, l := work[..n], locals[..n];
      assert forall k :: 0 <= k < n ==> w[k] == work[k] && l[k] == locals[k];
      ThreadsMax(f, w, l);
      assert Union(work) == Union(w) + work[n];
      assert Fold(locals) == Max(Fold(l), locals[n]);
      MaxUnion(f, Union(w), work[n], Fold(l), locals[n]);
    }
  }

  /** The indices `s..e` in increasing order: one task of the dynamic policy. */
  function Interval(s: nat, e: nat): (xs: seq<nat>)
    ensures forall x :: x in xs <==> s <= x <= e
    decreases e + 1 - s
  {
    if s > e then [] else [s] + Interval(s + 1, e)
  }

  /** The indices `start..end`, both ends included. */
  function Span(start: nat, end: nat): set<nat> {
    Elems(Interval(start, end))
  }
}
