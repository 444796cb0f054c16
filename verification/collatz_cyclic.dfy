/**
 * The block-cyclic policy (Assignment2/Collatz_Code/parallel_collatz.cpp:86-106):
 * thread `t` of `T` starts at `start + t * C` and, every `shift = T * C`
 * indices, handles the chunk of `C` consecutive indices there, cut at `end`.
 * Index `x` thus belongs to chunk `(x - start) / C`, and that chunk to thread
 * `((x - start) / C) % T`.
 */
module BlockCyclic {
  import opened Bits
  import opened CollatzMax

  /** No index repeats and the indices come in increasing order. */
  predicate Increasing(xs: seq<nat>) {
    forall a, b :: 0 <= a < b < |xs| ==> xs[a] < xs[b]
  }

  /** The inner loop from `k` on: `i + k, i + k + 1, …` while `k < c` and `i + k <= end`. */
  function Inner(i: nat, end: nat, c: nat, k: nat): (xs: seq<nat>)
    ensures forall a :: 0 <= a < |xs| ==> xs[a] == i + k + a && xs[a] <= end && xs[a] < i + c
    ensures forall x :: x in xs <==> i + k <= x <= end && x < i + c
    decreases c - k
  {
    if k < c && i + k <= end then [i + k] + Inner(i, end, c, k + 1) else []
  }

  /** Two increasing runs, the first entirely below the second, make one increasing run. */
  lemma IncreasingConcat(xs: seq<nat>, ys: seq<nat>)
    requires Increasing(xs) && Increasing(ys)
    requires forall a, b :: 0 <= a < |xs| && 0 <= b < |ys| ==> xs[a] < ys[b]
    ensures Increasing(xs + ys)
  {
    var zs := xs + ys;
    forall a, b | 0 <= a < b < |zs|
      ensures zs[a] < zs[b]
    {
      if b < |xs| {
        assert zs[a] == xs[a] && zs[b] == xs[b];
      } else if a < |xs| {
        assert zs[a] == xs[a] && zs[b] == ys[b - |xs|];
      } else {
        assert zs[a] == ys[a - |xs|] && zs[b] == ys[b - |xs|];
      }
    }
  }

  /** Shifting by one period leaves the position within the period alone. */
  lemma ModShift(a: nat, m: nat)
    requires 1 <= m <= a
    ensures a % m == (a - m) % m
  {
    ModUnique(a, m, (a - m) / m + 1, (a - m) % m);
  }

  /** An offset below the period is its own position within the period. */
  lemma ModSmall(a: nat, m: nat)
    requires a < m
    ensures a % m == a
  {
    ModUnique(a, m, 0, a);
  }

  /**
   * The outer loop from `i`: for each `i <= end`, the chunk at `i`, then on
   * to `i + shift`.
   */
  function Outer(i: nat, end: nat, c: nat, shift: nat): (xs: seq<nat>)
    requires 1 <= c <= shift
    ensures forall a :: 0 <= a < |xs| ==> i <= xs[a] <= end
    ensures Increasing(xs)
    decreases end + 1 - i
  {
    if i > end then []
    else
      var head := Inner(i, end, c, 0);
      var tail := Outer(i + shift, end, c, shift);
      IncreasingConcat(head, tail);
      var xs := head + tail;
      assert forall a :: 0 <= a < |xs| ==> xs[a] == if a < |head| then head[a] else tail[a - |head|];
      xs
  }

  /**
   * The indices of the outer loop from `i` are those of `[i, end]` whose
   * offset from `i` falls within the first `c` of each period of `shift`.
   */
  lemma {:induction false} OuterMember(i: nat, end: nat, c: nat, shift: nat, x: nat)
    requires 1 <= c <= shift
    ensures x in Outer(i, end, c, shift) <==> i <= x <= end && (x - i) % shift < c
    decreases end + 1 - i
  {
    if i <= end {
      var head := Inner(i, end, c, 0);
      var tail := Outer(i + shift, end, c, shift);
      assert Outer(i, end, c, shift) == head + tail;
      OuterMember(i + shift, end, c, shift, x);
      if i + shift <= x {
        ModShift(x - i, shift);
      } else if i <= x {
        ModSmall(x - i, shift);
      }
    }
  }

  /** The thread that owns index `x`: the chunk number modulo the thread count. */
  function Owner(start: nat, threads: nat, chunk: nat, x: nat): (t: nat)
    requires threads >= 1 && chunk >= 1 && start <= x
    ensures t < threads
  {
    ((x - start) / chunk) % threads
  }

  /** A period of `T * C` is at least one chunk long. */
  lemma ChunkFitsPeriod(threads: nat, chunk: nat)
    requires threads >= 1 && chunk >= 1
    ensures chunk <= threads * chunk
  {
  }

  /** The indices thread `t` visits, in the order it visits them. */
  function Visits(start: nat, end: nat, threads: nat, chunk: nat, t: nat): seq<nat>
    requires threads >= 1 && chunk >= 1
  {
    ChunkFitsPeriod(threads, chunk);
    Outer(start + t * chunk, end, chunk, threads * chunk)
  }

  /** Regrouping `u == T * q + b` chunks into periods of `T * C`. */
  lemma PeriodSplit(chunk: nat, threads: nat, q: nat, b: nat)
    ensures chunk * (threads * q + b) == (threads * chunk) * q + chunk * b
  {
    MulAssoc(chunk, threads, q);
    assert chunk * (threads * q + b) == chunk * (threads * q) + chunk * b;
  }

  /** Less than `T` chunks plus less than one chunk fit within one period. */
  lemma WithinPeriod(chunk: nat, threads: nat, b: nat, r: nat)
    requires b < threads && r < chunk
    ensures chunk * b + r < threads * chunk
  {
    assert chunk * b <= chunk * (threads - 1);
  }

  /** Within a period of `T * C`, the position is the chunk's place in the cycle, then the place in the chunk. */
  lemma ModNested(z: nat, threads: nat, chunk: nat)
    requires threads >= 1 && chunk >= 1
    ensures z % (threads * chunk) == chunk * ((z / chunk) % threads) + z % chunk
  {
    var u, r := z / chunk, z % chunk;
    var q, b := u / threads, u % threads;
    PeriodSplit(chunk, threads, q, b);
    WithinPeriod(chunk, threads, b, r);
    ModUnique(z, threads * chunk, q, chunk * b + r);
  }

  /** Chunk `a` is `t` chunks past a multiple of `T` exactly when its owner is `t`. */
  lemma CycleOffset(a: nat, threads: nat, t: nat)
    requires threads >= 1 && t < threads && t <= a
    ensures (a - t) % threads == 0 <==> a % threads == t
  {
    var q, b := a / threads, a % threads;
    assert a == threads * q + b;
    if b >= t {
      ModUnique(a - t, threads, q, b - t);
    } else {
      assert q >= 1;
      ModUnique(a - t, threads, q - 1, threads + b - t);
    }
  }

  /** Taking `t` chunks off `a` chunks leaves `a - t` chunks. */
  lemma MulSub(chunk: nat, a: nat, t: nat)
    requires t <= a
    ensures chunk * a == chunk * (a - t) + t * chunk
  {
  }

  /** Fewer than `t` whole chunks end before offset `t * C`. */
  lemma MulBelow(chunk: nat, a: nat, t: nat)
    requires a < t
    ensures chunk * a + chunk <= t * chunk
  {
    assert chunk * (a + 1) <= chunk * t;
  }

  /** A nonzero number of chunks is at least one chunk. */
  lemma MulAtLeast(chunk: nat, k: nat)
    requires k >= 1
    ensures chunk * k >= chunk
  {
  }

  /** Offsets from chunk `t` on: thread `t` owns them exactly at the right place in each period. */
  lemma OwnerIffFrom(y: nat, threads: nat, chunk: nat, t: nat)
    requires threads >= 1 && chunk >= 1 && t < threads && y / chunk >= t
    ensures y >= t * chunk
    ensures (y - t * chunk) % (threads * chunk) < chunk <==> (y / chunk) % threads == t
  {
    var a, r := y / chunk, y % chunk;
    MulSub(chunk, a, t);
    var z := y - t * chunk;
    assert z == chunk * (a - t) + r;
    ModUnique(z, chunk, a - t, r);
    ModNested(z, threads, chunk);
    CycleOffset(a, threads, t);
    var k := (a - t) % threads;
    if k != 0 {
      MulAtLeast(chunk, k);
    }
  }

  /** Offsets before chunk `t` belong to an earlier thread and precede thread `t`'s start. */
  lemma OwnerIffBefore(y: nat, threads: nat, chunk: nat, t: nat)
    requires threads >= 1 && chunk >= 1 && t < threads && y / chunk < t
    ensures y < t * chunk && (y / chunk) % threads != t
  {
    var a := y / chunk;
    MulBelow(chunk, a, t);
    ModSmall(a, threads);
  }

  /**
   * The offset arithmetic behind the schedule: offset `y` lies in thread
   * `t`'s part of a period exactly when chunk `y / C` is owned by `t`.
   */
  lemma OwnerIff(y: nat, threads: nat, chunk: nat, t: nat)
    requires threads >= 1 && chunk >= 1 && t < threads
    ensures (y >= t * chunk && (y - t * chunk) % (threads * chunk) < chunk) <==> (y / chunk) % threads == t
  {
    if y / chunk >= t {
      OwnerIffFrom(y, threads, chunk, t);
    } else {
      OwnerIffBefore(y, threads, chunk, t);
    }
  }

  /** `OwnerIff` at index `x`, in the form the outer loop's membership takes. */
  lemma OwnerAt(start: nat, threads: nat, chunk: nat, t: nat, x: nat)
    requires threads >= 1 && chunk >= 1 && t < threads
    ensures (start + t * chunk <= x && (x - (start + t * chunk)) % (threads * chunk) < chunk)
            <==> (start <= x && Owner(start, threads, chunk, x) == t)
  {
    if start <= x {
      OwnerIff(x - start, threads, chunk, t);
    }
  }

  /** Thread `t` visits exactly the indices of `[start, end]` it owns. */
  lemma VisitsMember(start: nat, end: nat, threads: nat, chunk: nat, t: nat, x: nat)
    requires threads >= 1 && chunk >= 1 && t < threads
    ensures x in Visits(start, end, threads, chunk, t)
            <==> start <= x <= end && Owner(start, threads, chunk, x) == t
  {
    OuterMember(start + t * chunk, end, chunk, threads * chunk, x);
    OwnerAt(start, threads, chunk, t, x);
  }

  /**
   * Every index of `[start, end]` is visited by exactly one thread, its
   * owner, and that thread visits it once: visit lists never repeat.
   */
  lemma VisitedOnce(start: nat, end: nat, threads: nat, chunk: nat, x: nat)
    requires threads >= 1 && chunk >= 1 && start <= x <= end
    ensures var o := Owner(start, threads, chunk, x);
            x in Visits(start, end, threads, chunk, o)
            && (forall t :: 0 <= t < threads && x in Visits(start, end, threads, chunk, t) ==> t == o)
            && Increasing(Visits(start, end, threads, chunk, o))
  {
    var o := Owner(start, threads, chunk, x);
    VisitsMember(start, end, threads, chunk, o, x);
    forall t | 0 <= t < threads && x in Visits(start, end, threads, chunk, t)
      ensures t == o
    {
      VisitsMember(start, end, threads, chunk, t, x);
    }
  }

  /** Every thread visits only indices of `[start, end]`, whatever its id. */
  lemma VisitsInRange(start: nat, end: nat, threads: nat, chunk: nat, t: nat, x: nat)
    requires threads >= 1 && chunk >= 1
    requires x in Visits(start, end, threads, chunk, t)
    ensures start <= x <= end
  {
    var xs := Visits(start, end, threads, chunk, t);
    var a :| 0 <= a < |xs| && xs[a] == x;
  }

  /** The `local_max` of each thread, in the order the threads take the mutex. */
  function LocalMaxes(f: nat -> nat, start: nat, end: nat, threads: nat, chunk: nat, order: seq<nat>): (ms: seq<nat>)
    requires threads >= 1 && chunk >= 1
    ensures |ms| == |order|
    ensures forall k :: 0 <= k < |order| ==> IsMax(f, Elems(Visits(start, end, threads, chunk, order[k])), ms[k])
  {
    seq(|order|, k requires 0 <= k < |order| => SeqMax(f, Visits(start, end, threads, chunk, order[k])))
  }

  /** What each thread visits, in the order the threads take the mutex. */
  function VisitSets(start: nat, end: nat, threads: nat, chunk: nat, order: seq<nat>): (work: seq<set<nat>>)
    requires threads >= 1 && chunk >= 1
    ensures |work| == |order|
    ensures forall k :: 0 <= k < |order| ==> work[k] == Elems(Visits(start, end, threads, chunk, order[k]))
  {
    seq(|order|, k requires 0 <= k < |order| => Elems(Visits(start, end, threads, chunk, order[k])))
  }

  /** With every thread running, each index of `[start, end]` is in some thread's set. */
  lemma CoverIn(start: nat, end: nat, threads: nat, chunk: nat, order: seq<nat>, x: nat)
    requires threads >= 1 && chunk >= 1 && start <= x <= end
    requires forall t :: 0 <= t < threads ==> t in order
    ensures x in Union(VisitSets(start, end, threads, chunk, order))
  {
    var work := VisitSets(start, end, threads, chunk, order);
    var o := Owner(start, threads, chunk, x);
    VisitsMember(start, end, threads, chunk, o, x);
    assert o in order;
    var k :| 0 <= k < |order| && order[k] == o;
    assert x in work[k];
    UnionMember(work, x);
  }

  /** Every index in some thread's set lies in `[start, end]`. */
  lemma CoverOut(start: nat, end: nat, threads: nat, chunk: nat, order: seq<nat>, x: nat)
    requires threads >= 1 && chunk >= 1
    requires x in Union(VisitSets(start, end, threads, chunk, order))
    ensures start <= x <= end
  {
    var work := VisitSets(start, end, threads, chunk, order);
    UnionMember(work, x);
    var k :| 0 <= k < |work| && x in work[k];
    VisitsInRange(start, end, threads, chunk, order[k], x);
  }

  /** With every thread running, the threads' sets together are exactly `[start, end]`. */
  lemma CoverAll(start: nat, end: nat, threads: nat, chunk: nat, order: seq<nat>)
    requires threads >= 1 && chunk >= 1
    requires forall t :: 0 <= t < threads ==> t in order
    ensures Union(VisitSets(start, end, threads, chunk, order)) == Span(start, end)
  {
    var work := VisitSets(start, end, threads, chunk, order);
    forall x
      ensures x in Union(work) <==> x in Span(start, end)
    {
      if start <= x <= end {
        CoverIn(start, end, threads, chunk, order, x);
      }
      if x in Union(work) {
        CoverOut(start, end, threads, chunk, order, x);
      }
    }
  }

  /**
   * Whatever order the threads take the mutex in, the shared maximum ends
   * as the maximum of `f` over the whole range.
   */
  lemma BlockCyclicMax(f: nat -> nat, start: nat, end: nat, threads: nat, chunk: nat, order: seq<nat>)
    requires threads >= 1 && chunk >= 1
    requires forall t :: 0 <= t < threads ==> t in order
    ensures IsMax(f, Span(start, end), Fold(LocalMaxes(f, start, end, threads, chunk, order)))
  {
    ThreadsMax(f, VisitSets(start, end, threads, chunk, order), LocalMaxes(f, start, end, threads, chunk, order));
    CoverAll(start, end, threads, chunk, order);
  }

  /**
   * The entry `max_steps_per_range[j]` after `run` with the block-cyclic
   * policy: every spawned thread folds its local maximum into the entry,
   * which starts at 0.  With no thread spawned nothing is folded in.
   */
  function BlockCyclicRun(f: nat -> nat, start: nat, end: nat, numThreads: int, chunk: nat): nat
    requires chunk >= 1
  {
    var ids := Spawned(numThreads);
    Fold(seq(|ids|, k requires 0 <= k < |ids| => SeqMax(f, Visits(start, end, |ids|, chunk, ids[k]))))
  }

  /** With at least one thread the reported value is the maximum of `f` over the range. */
  lemma BlockCyclicRunMax(f: nat -> nat, start: nat, end: nat, numThreads: int, chunk: nat)
    requires chunk >= 1 && numThreads >= 1
    ensures IsMax(f, Span(start, end), BlockCyclicRun(f, start, end, numThreads, chunk))
  {
    var ids := Spawned(numThreads);
    assert seq(|ids|, k requires 0 <= k < |ids| => SeqMax(f, Visits(start, end, |ids|, chunk, ids[k])))
        == LocalMaxes(f, start, end, numThreads, chunk, ids);
    assert forall t :: 0 <= t < numThreads ==> t in ids by {
      forall t | 0 <= t < numThreads
        ensures t in ids
      {
        assert ids[t] == t;
      }
    }
    BlockCyclicMax(f, start, end, numThreads, chunk, ids);
  }

  /**
   * With `num_threads <= 0` no thread runs and the reported value stays 0,
   * which is not the maximum of any range whose first index has a nonzero
   * value.
   */
  lemma BlockCyclicRunNoThreads(f: nat -> nat, start: nat, end: nat, numThreads: int, chunk: nat)
    requires chunk >= 1 && numThreads <= 0
    ensures BlockCyclicRun(f, start, end, numThreads, chunk) == 0
    ensures start <= end && f(start) > 0 ==> !IsMax(f, Span(start, end), BlockCyclicRun(f, start, end, numThreads, chunk))
  {
    if start <= end {
      assert start in Interval(start, end);
    }
  }

  /**
   * The outer loop's index after `n` rounds of `i += shift`
   * (parallel_collatz.cpp:95), for any chunk size, zero included.
   */
  function OuterAfter(i: nat, shift: nat, n: nat): (j: nat)
    ensures j >= i
    decreases n
  {
    if n == 0 then i else OuterAfter(i + shift, shift, n - 1)
  }

  /** After `n` rounds the index has moved by `n` periods. */
  lemma {:induction false} OuterAfterClosed(i: nat, shift: nat, n: nat)
    ensures OuterAfter(i, shift, n) == i + n * shift
    decreases n
  {
    if n > 0 {
      OuterAfterClosed(i + shift, shift, n - 1);
      assert (n - 1) * shift + shift == n * shift;
    }
  }

  /** Thread `t`'s index after `n` rounds: it starts at `start + t * C` and moves by `T * C`. */
  function ThreadIndex(start: nat, threads: nat, chunk: nat, t: nat, n: nat): nat {
    OuterAfter(start + t * chunk, threads * chunk, n)
  }

  /**
   * Thread `t`'s outer loop over a nonempty range leaves it, after some
   * number of rounds, exactly when the chunk size is positive.  With
   * `chunk_size` 0 the period `num_threads * chunk_size` is 0, the index
   * stays at `start` forever and the inner loop computes nothing, so the
   * block-cyclic run never ends.
   */
  lemma OuterLoopEnds(start: nat, end: nat, threads: nat, chunk: nat, t: nat)
    requires t < threads && start <= end
    ensures (exists n: nat :: ThreadIndex(start, threads, chunk, t, n) > end) <==> chunk >= 1
    ensures chunk == 0 ==> Inner(start + t * chunk, end, chunk, 0) == []
  {
    var i := start + t * chunk;
    if chunk >= 1 {
      var shift := threads * chunk;
      ChunkFitsPeriod(threads, chunk);
      OuterAfterClosed(i, shift, end + 1);
      assert (end + 1) * shift >= end + 1 by {
        assert (end + 1) * shift == (end + 1) * (shift - 1) + (end + 1);
        MulNonneg(end + 1, shift - 1);
      }
      assert ThreadIndex(start, threads, chunk, t, end + 1) > end;
    } else {
      forall n: nat
        ensures ThreadIndex(start, threads, chunk, t, n) <= end
      {
        OuterAfterClosed(i, threads * chunk, n);
      }
    }
  }
}
