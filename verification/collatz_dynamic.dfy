/**
 * The dynamic policy (Assignment2/Collatz_Code/parallel_collatz.cpp:26-50 and
 * 63-83): one `DynamicTaskManager` per range holds an atomic counter; every
 * call of `get_next_task` takes the next `chunk_size` indices with one
 * `fetch_add`, and fails once the counter has passed `end`.  Threads call it
 * until it fails, each folding the indices it received into its own
 * `local_max`.
 *
 * The atomic calls happen one after the other in some order, so the model
 * numbers the calls `0, 1, 2, …` and records which thread made each one.
 */
module DynamicTasks {
  import opened Outcomes
  import opened Numerals
  import opened Blocks
  import opened CollatzMax
  import Bits

  /** The counter, the last index of the range and the chunk size. */
  datatype TaskManager = TaskManager(current: nat, end: nat, chunk: nat)

  /**
   * `get_next_task`: `fetch_add` the chunk size (wrapping modulo 2^64); fail
   * when the counter before the addition is past `end`, else hand out `[old, min(old +
   * chunk - 1, end)]`, the sum computed in 64-bit unsigned arithmetic.
   */
  function GetNextTask(m: TaskManager): (r: (TaskManager, Option<(nat, nat)>))
    ensures r.0 == TaskManager((m.current + m.chunk) % WORD, m.end, m.chunk)
    ensures r.1.None? <==> m.current > m.end
    ensures r.1.Some? ==> r.1.value.0 == m.current && r.1.value.1 <= m.end
    ensures r.1.Some? && m.chunk >= 1 && m.current + m.chunk <= WORD ==>
              r.1.value.0 <= r.1.value.1 < r.1.value.0 + m.chunk
              && (r.1.value.1 == m.end || r.1.value.1 + 1 == r.1.value.0 + m.chunk)
  {
    var prev := m.current;
    var next := m.(current := (prev + m.chunk) % WORD);
    if prev > m.end then (next, None)
    else
      var last := (prev + m.chunk + ULLONG_MAX) % WORD;
      assert 1 <= prev + m.chunk <= WORD ==> last == prev + m.chunk - 1 by {
        if 1 <= prev + m.chunk <= WORD {
          Bits.ModUnique(prev + m.chunk + ULLONG_MAX, WORD, 1, prev + m.chunk - 1);
        }
      }
      (next, Some((prev, Min(last, m.end))))
  }

  /** `k` successive calls: the manager after them and what each call returned. */
  function Calls(m: TaskManager, k: nat): (r: (TaskManager, seq<Option<(nat, nat)>>))
    ensures |r.1| == k
    decreases k
  {
    if k == 0 then (m, [])
    else
      var p := Calls(m, k - 1);
      var g := GetNextTask(p.0);
      (g.0, p.1 + [g.1])
  }

  /** Task `k` of `[start, end]` in chunks of `chunk`, as long as the counter has not wrapped. */
  function TaskAt(start: nat, end: nat, chunk: nat, k: nat): (r: Option<(nat, nat)>)
    requires chunk >= 1
    ensures r.Some? ==> start <= r.value.0 <= r.value.1 <= end
  {
    var s := start + k * chunk;
    if s > end then None else Some((s, Min(s + chunk - 1, end)))
  }

  /** `k` chunks are `k - 1` chunks and one more. */
  lemma MulSucc(k: nat, chunk: nat)
    requires k >= 1
    ensures k * chunk == (k - 1) * chunk + chunk
  {
  }

  /** A counter value below 2^64 is its own value modulo 2^64. */
  lemma NoWrap(s: nat)
    requires s < WORD
    ensures s % WORD == s
  {
    Bits.ModUnique(s, WORD, 0, s);
  }

  /** Call number `k`, made while the counter reads `start + k * chunk`, hands out `TaskAt(k)`. */
  lemma CallAt(start: nat, end: nat, chunk: nat, k: nat)
    requires chunk >= 1 && start + (k + 1) * chunk <= WORD
    ensures GetNextTask(TaskManager(start + k * chunk, end, chunk))
            == (TaskManager((start + (k + 1) * chunk) % WORD, end, chunk), TaskAt(start, end, chunk, k))
  {
    MulSucc(k + 1, chunk);
  }

  /** Before it wraps, the counter of a fresh manager reads `start + k * chunk` after `k` calls. */
  lemma {:induction false} CallsCounter(start: nat, end: nat, chunk: nat, k: nat)
    requires chunk >= 1 && start <= ULLONG_MAX && start + k * chunk <= WORD
    ensures Calls(TaskManager(start, end, chunk), k).0 == TaskManager((start + k * chunk) % WORD, end, chunk)
    decreases k
  {
    if k == 0 {
      NoWrap(start);
    } else {
      MulSucc(k, chunk);
      var s := start + (k - 1) * chunk;
      NoWrap(s);
      CallsCounter(start, end, chunk, k - 1);
      CallAt(start, end, chunk, k - 1);
    }
  }

  /**
   * Before the counter wraps, the calls on a fresh manager hand out the
   * tasks `TaskAt(0), TaskAt(1), …` in order.
   */
  lemma {:induction false} CallsClosed(start: nat, end: nat, chunk: nat, k: nat)
    requires chunk >= 1 && start <= ULLONG_MAX && start + k * chunk <= WORD
    ensures forall j :: 0 <= j < k ==> Calls(TaskManager(start, end, chunk), k).1[j] == TaskAt(start, end, chunk, j)
    decreases k
  {
    if k > 0 {
      var m0 := TaskManager(start, end, chunk);
      MulSucc(k, chunk);
      var s := start + (k - 1) * chunk;
      NoWrap(s);
      CallsCounter(start, end, chunk, k - 1);
      CallsClosed(start, end, chunk, k - 1);
      CallAt(start, end, chunk, k - 1);
      var p := Calls(m0, k - 1);
      var rs := Calls(m0, k).1;
      assert rs == p.1 + [TaskAt(start, end, chunk, k - 1)];
      forall j | 0 <= j < k
        ensures rs[j] == TaskAt(start, end, chunk, j)
      {
        if j < k - 1 {
          assert rs[j] == p.1[j];
        }
      }
    }
  }

  /**
   * The tasks tile `[start, end]`: the first starts at `start`, each is at
   * most `chunk` long, the next starts right after the previous one ends,
   * and once a task reaches `end` (or none is left) every later call fails.
   */
  lemma DynamicTiles(start: nat, end: nat, chunk: nat, k: nat)
    requires chunk >= 1
    ensures start <= end ==> TaskAt(start, end, chunk, 0) == Some((start, Min(start + chunk - 1, end)))
    ensures TaskAt(start, end, chunk, k).Some? ==>
              var (s, e) := TaskAt(start, end, chunk, k).value;
              start <= s <= e <= end && e - s < chunk
              && (e < end ==> TaskAt(start, end, chunk, k + 1).Some? && TaskAt(start, end, chunk, k + 1).value.0 == e + 1)
              && (e == end ==> TaskAt(start, end, chunk, k + 1).None?)
    ensures TaskAt(start, end, chunk, k).None? ==> TaskAt(start, end, chunk, k + 1).None?
  {
    MulSucc(k + 1, chunk);
  }

  /** Where an index falls among the chunks: `k * chunk <= y < (k + 1) * chunk` for `k == y / chunk`. */
  lemma ChunkIndex(y: nat, chunk: nat)
    requires chunk >= 1
    ensures (y / chunk) * chunk <= y < (y / chunk) * chunk + chunk
  {
  }

  /** More chunks reach further. */
  lemma MulMono(a: nat, b: nat, chunk: nat)
    requires a <= b
    ensures a * chunk <= b * chunk
  {
  }

  /** Offset `y` lies in chunk `k` exactly when `k == y / chunk`. */
  lemma OnlyChunk(y: nat, chunk: nat, k: nat)
    requires chunk >= 1
    ensures k * chunk <= y < k * chunk + chunk <==> k == y / chunk
  {
    var c := y / chunk;
    ChunkIndex(y, chunk);
    if k < c {
      MulSucc(k + 1, chunk);
      MulMono(k + 1, c, chunk);
    } else if k > c {
      MulSucc(c + 1, chunk);
      MulMono(c + 1, k, chunk);
    }
  }

  /** Every index of `[start, end]` lies in exactly one task, task `(x - start) / chunk`. */
  lemma TaskOf(start: nat, end: nat, chunk: nat, x: nat, k: nat)
    requires chunk >= 1 && start <= x <= end
    ensures TaskAt(start, end, chunk, k).Some?
            && TaskAt(start, end, chunk, k).value.0 <= x <= TaskAt(start, end, chunk, k).value.1
            <==> k == (x - start) / chunk
  {
    OnlyChunk(x - start, chunk, k);
  }

  /** A zero chunk size never moves the counter: `get_next_task` succeeds forever on the same index. */
  lemma ZeroChunkStalls(m: TaskManager)
    requires m.chunk == 0 && m.current <= m.end && m.current < WORD
    ensures GetNextTask(m).0 == m && GetNextTask(m).1.Some?
  {
    Bits.ModUnique(m.current, WORD, 0, m.current);
  }

  /** The indices handed to thread `t`, in the order it received them; `who[j]` made call `j`. */
  function ThreadItems(rs: seq<Option<(nat, nat)>>, who: seq<nat>, t: nat): seq<nat>
    requires |who| == |rs|
    decreases |rs|
  {
    if |rs| == 0 then []
    else
      var n := |rs| - 1;
      ThreadItems(rs[..n], who[..n], t)
      + (if who[n] == t && rs[n].Some? then Interval(rs[n].value.0, rs[n].value.1) else [])
  }

  /** Call `j`, made by thread `t`, handed out a task covering `x`. */
  predicate Covers(rs: seq<Option<(nat, nat)>>, who: seq<nat>, t: nat, x: nat, j: nat)
    requires |who| == |rs|
  {
    j < |rs| && who[j] == t && rs[j].Some? && rs[j].value.0 <= x <= rs[j].value.1
  }

  /** A thread holds every index of every task it received. */
  lemma {:induction false} ThreadItemsHas(rs: seq<Option<(nat, nat)>>, who: seq<nat>, t: nat, x: nat, j: nat)
    requires |who| == |rs| && Covers(rs, who, t, x, j)
    ensures x in ThreadItems(rs, who, t)
    decreases |rs|
  {
    var n := |rs| - 1;
    if j < n {
      assert who[..n][j] == who[j] && rs[..n][j] == rs[j];
      ThreadItemsHas(rs[..n], who[..n], t, x, j);
    }
  }

  /** A thread holds only indices of tasks it received. */
  lemma {:induction false} ThreadItemsFrom(rs: seq<Option<(nat, nat)>>, who: seq<nat>, t: nat, x: nat) returns (j: nat)
    requires |who| == |rs| && x in ThreadItems(rs, who, t)
    ensures Covers(rs, who, t, x, j)
    decreases |rs|
  {
    var n := |rs| - 1;
    if x in ThreadItems(rs[..n], who[..n], t) {
      j := ThreadItemsFrom(rs[..n], who[..n], t, x);
      assert who[..n][j] == who[j] && rs[..n][j] == rs[j];
    } else {
      j := n;
    }
  }

  /** The `local_max` of each thread, in the order the threads take the mutex. */
  function DynamicLocals(f: nat -> nat, rs: seq<Option<(nat, nat)>>, who: seq<nat>, order: seq<nat>): (ms: seq<nat>)
    requires |who| == |rs|
    ensures |ms| == |order|
    ensures forall k :: 0 <= k < |order| ==> IsMax(f, Elems(ThreadItems(rs, who, order[k])), ms[k])
  {
    seq(|order|, k requires 0 <= k < |order| => SeqMax(f, ThreadItems(rs, who, order[k])))
  }

  /** What each thread received, in the order the threads take the mutex. */
  function DynamicWork(rs: seq<Option<(nat, nat)>>, who: seq<nat>, order: seq<nat>): (work: seq<set<nat>>)
    requires |who| == |rs|
    ensures |work| == |order|
    ensures forall k :: 0 <= k < |order| ==> work[k] == Elems(ThreadItems(rs, who, order[k]))
  {
    seq(|order|, k requires 0 <= k < |order| => Elems(ThreadItems(rs, who, order[k])))
  }

  /** The fewer-chunks comparison behind "every task was handed out". */
  lemma FewerChunks(k: nat, n: nat, chunk: nat)
    requires chunk >= 1 && k * chunk < n * chunk
    ensures k < n
  {
  }

  /** `rs` is what the calls on a fresh manager for `[start, end]` returned, in call order. */
  ghost predicate HandedOut(start: nat, end: nat, chunk: nat, rs: seq<Option<(nat, nat)>>)
    requires chunk >= 1
  {
    forall j :: 0 <= j < |rs| ==> rs[j] == TaskAt(start, end, chunk, j)
  }

  /** With the calls run until one failed, each index of `[start, end]` went to some thread. */
  lemma DynamicCoverIn(start: nat, end: nat, chunk: nat, rs: seq<Option<(nat, nat)>>, who: seq<nat>, order: seq<nat>, x: nat)
    requires chunk >= 1 && |who| == |rs| > 0 && HandedOut(start, end, chunk, rs) && rs[|rs| - 1].None?
    requires forall j :: 0 <= j < |who| ==> who[j] in order
    requires start <= x <= end
    ensures x in Union(DynamicWork(rs, who, order))
  {
    var k := (x - start) / chunk;
    TaskOf(start, end, chunk, x, k);
    ChunkIndex(x - start, chunk);
    assert TaskAt(start, end, chunk, |rs| - 1).None?;
    FewerChunks(k, |rs| - 1, chunk);
    assert rs[k] == TaskAt(start, end, chunk, k);
    ThreadItemsHas(rs, who, who[k], x, k);
    assert who[k] in order;
    var i :| 0 <= i < |order| && order[i] == who[k];
    var work := DynamicWork(rs, who, order);
    assert x in work[i];
    UnionMember(work, x);
  }

  /** Every index a thread received lies in `[start, end]`. */
  lemma DynamicCoverOut(start: nat, end: nat, chunk: nat, rs: seq<Option<(nat, nat)>>, who: seq<nat>, order: seq<nat>, x: nat)
    requires chunk >= 1 && |who| == |rs| && HandedOut(start, end, chunk, rs)
    requires x in Union(DynamicWork(rs, who, order))
    ensures start <= x <= end
  {
    var work := DynamicWork(rs, who, order);
    UnionMember(work, x);
    var i :| 0 <= i < |work| && x in work[i];
    var j := ThreadItemsFrom(rs, who, order[i], x);
    assert rs[j] == TaskAt(start, end, chunk, j);
  }

  /** Once the calls have run until one failed, the threads together received exactly `[start, end]`. */
  lemma DynamicCoverAll(start: nat, end: nat, chunk: nat, rs: seq<Option<(nat, nat)>>, who: seq<nat>, order: seq<nat>)
    requires chunk >= 1 && |who| == |rs| > 0 && HandedOut(start, end, chunk, rs) && rs[|rs| - 1].None?
    requires forall j :: 0 <= j < |who| ==> who[j] in order
    ensures Union(DynamicWork(rs, who, order)) == Span(start, end)
  {
    var work := DynamicWork(rs, who, order);
    forall x
      ensures x in Union(work) <==> x in Span(start, end)
    {
      if start <= x <= end {
        DynamicCoverIn(start, end, chunk, rs, who, order, x);
      }
      if x in Union(work) {
        DynamicCoverOut(start, end, chunk, rs, who, order, x);
      }
    }
  }

  /**
   * Whichever thread made each call and whatever order the threads take
   * the mutex in, once the calls have run until one failed the shared
   * maximum is the maximum of `f` over the whole range.
   */
  lemma DynamicMax(f: nat -> nat, start: nat, end: nat, chunk: nat, who: seq<nat>, order: seq<nat>)
    requires chunk >= 1 && |who| > 0 && start <= ULLONG_MAX && start + |who| * chunk <= WORD
    requires Calls(TaskManager(start, end, chunk), |who|).1[|who| - 1].None?
    requires forall j :: 0 <= j < |who| ==> who[j] in order
    ensures var rs := Calls(TaskManager(start, end, chunk), |who|).1;
            IsMax(f, Span(start, end), Fold(DynamicLocals(f, rs, who, order)))
  {
    var rs := Calls(TaskManager(start, end, chunk), |who|).1;
    CallsClosed(start, end, chunk, |who|);
    assert HandedOut(start, end, chunk, rs);
    DynamicCoverAll(start, end, chunk, rs, who, order);
    ThreadsMax(f, DynamicWork(rs, who, order), DynamicLocals(f, rs, who, order));
  }
}
