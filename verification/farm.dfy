/**
 * The farm coordinator of Assignment4/MergeSort_Code/mergesort_par.cpp
 * (copied verbatim into mergesort_mpi.cpp:95-250), as a sequential state
 * machine.
 *
 * The master splits `[0, n)` into `W + 1` blocks, sends `W` sort tasks and
 * sorts the last block itself.  It keeps the sorted blocks as a deque of
 * ranges; whenever the countdown of outstanding tasks reaches zero it either
 * pairs adjacent ranges into merge tasks (`send_task`) or, when one range is
 * left, broadcasts end-of-stream.  A worker's `svc` is one atomic step that
 * sorts or merges the range its task names.  The tasks of one round name
 * pairwise-disjoint ranges, and `RunTasks` characterises their combined
 * effect independently of the order in which workers run them.
 */
module Farm {
  import opened Records
  import opened Order
  import opened Kernel
  import opened Blocks
  import opened Bits

  /** A half-open range `[lo, hi)` of the record array. */
  datatype Range = Range(lo: nat, hi: nat)

  /**
   * A unit of work.  When `isSorted` is false the worker sorts
   * `[left, right)`; otherwise it merges the sorted runs `[left, mid)` and
   * `[mid, right)`.
   */
  datatype Task = Task(left: nat, mid: nat, right: nat, isSorted: bool, id: int)

  /**
   * The master's state: its deque of sorted ranges, the number of tasks
   * still to come back, and its member flag `from_left`.
   */
  datatype Master = Master(ranges: seq<Range>, nSent: int, fromLeft: bool)

  /** What the master does on receiving a returned task. */
  datatype Action = Wait | Dispatch(tasks: seq<Task>) | Broadcast

  /** The pairing produced by one call of `send_task`: the new deque and the tasks sent, in order. */
  datatype Round = Round(ranges: seq<Range>, tasks: seq<Task>)

  /** `rs` are non-decreasing ranges, each starting where the previous ends, covering exactly `[lo, hi)`. */
  predicate Tiles(rs: seq<Range>, lo: nat, hi: nat) {
    && (|rs| == 0 ==> lo == hi)
    && (|rs| > 0 ==> rs[0].lo == lo && rs[|rs| - 1].hi == hi)
    && (forall i :: 0 <= i < |rs| ==> rs[i].lo <= rs[i].hi)
    && (forall i :: 0 <= i < |rs| - 1 ==> rs[i].hi == rs[i + 1].lo)
  }

  /** In a tiling, an earlier range ends no later than a later one starts. */
  lemma {:induction false} TilesOrdered(rs: seq<Range>, lo: nat, hi: nat, i: nat, j: nat)
    requires Tiles(rs, lo, hi) && i < j < |rs|
    ensures rs[i].hi <= rs[j].lo
    decreases j - i
  {
    if i + 1 < j {
      TilesOrdered(rs, lo, hi, i + 1, j);
    }
  }

  /** Every range of a tiling of `[lo, hi)` lies inside `[lo, hi)`. */
  lemma TilesWithin(rs: seq<Range>, lo: nat, hi: nat, i: nat)
    requires Tiles(rs, lo, hi) && i < |rs|
    ensures lo <= rs[i].lo <= rs[i].hi <= hi
  {
    if 0 < i {
      TilesOrdered(rs, lo, hi, 0, i);
    }
    if i < |rs| - 1 {
      TilesOrdered(rs, lo, hi, i, |rs| - 1);
    }
  }

  // ---------------------------------------------------------------------
  // First phase: the initial split
  // ---------------------------------------------------------------------

  /** `rs` lists the blocks of `[0, n)` in order. */
  ghost predicate IsSplit(rs: seq<Range>, n: nat, parts: nat)
    requires parts >= 1
  {
    |rs| == parts && forall i :: 0 <= i < parts ==> rs[i] == Range(BlockStart(n, parts, i), BlockStart(n, parts, i + 1))
  }

  /** The blocks tile `[0, n)`, block `i` holding `BlockLen(n, parts, i)` records. */
  lemma SplitTiles(rs: seq<Range>, n: nat, parts: nat)
    requires parts >= 1 && IsSplit(rs, n, parts)
    ensures Tiles(rs, 0, n)
    ensures forall i :: 0 <= i < parts ==> rs[i].hi - rs[i].lo == BlockLen(n, parts, i)
  {
    BlockEnd(n, parts);
    assert rs[0] == Range(BlockStart(n, parts, 0), BlockStart(n, parts, 1));
    assert rs[parts - 1] == Range(BlockStart(n, parts, parts - 1), BlockStart(n, parts, parts));
    forall i | 0 <= i < parts
      ensures rs[i].lo <= rs[i].hi && rs[i].hi - rs[i].lo == BlockLen(n, parts, i)
    {
      assert rs[i] == Range(BlockStart(n, parts, i), BlockStart(n, parts, i + 1));
      assert BlockStart(n, parts, i + 1) == BlockStart(n, parts, i) + BlockLen(n, parts, i);
    }
    forall i | 0 <= i < parts - 1 ensures rs[i].hi == rs[i + 1].lo {
      assert rs[i] == Range(BlockStart(n, parts, i), BlockStart(n, parts, i + 1));
      assert rs[i + 1] == Range(BlockStart(n, parts, i + 1), BlockStart(n, parts, i + 2));
    }
  }

  /**
   * The first call of `Master::svc`: cuts `[0, n)` into `nWorkers + 1`
   * ranges, the first `n % (nWorkers + 1)` one record longer than the rest,
   * and sends a sort task for each of the first `nWorkers` ranges.  The last
   * range is the master's own.  The countdown starts at `nWorkers`.
   */
  method MasterStart(n: nat, nWorkers: nat) returns (m: Master, tasks: seq<Task>)
    requires nWorkers >= 1
    ensures |m.ranges| == nWorkers + 1 && Tiles(m.ranges, 0, n)
    ensures forall i :: 0 <= i < |m.ranges| ==> m.ranges[i].hi - m.ranges[i].lo == BlockLen(n, nWorkers + 1, i)
    ensures |tasks| == nWorkers
    ensures forall i :: 0 <= i < nWorkers ==>
              tasks[i] == Task(m.ranges[i].lo, m.ranges[i].lo, m.ranges[i].hi, false, i)
    ensures m.nSent == nWorkers && m.fromLeft
  {
    var ranges, start;
    ranges, tasks, start := SplitLoop(n, nWorkers);
    StartSplit(ranges, tasks, n, nWorkers);
    m := Master(ranges + [Range(start, n)], nWorkers, true);
  }

  /**
   * The distribution loop of the first `Master::svc` call: block `i` ends
   * `chunk_size` records after it starts, plus one while `i < remainder`.
   * Returns the workers' blocks, their tasks and the start of the master's
   * own block.
   */
  method SplitLoop(n: nat, nWorkers: nat) returns (ranges: seq<Range>, tasks: seq<Task>, start: nat)
    requires nWorkers >= 1
    ensures |ranges| == nWorkers && |tasks| == nWorkers
    ensures start == BlockStart(n, nWorkers + 1, nWorkers)
    ensures forall j :: 0 <= j < nWorkers ==> ranges[j] == Range(BlockStart(n, nWorkers + 1, j), BlockStart(n, nWorkers + 1, j + 1))
    ensures forall j :: 0 <= j < nWorkers ==>
              tasks[j] == Task(BlockStart(n, nWorkers + 1, j), BlockStart(n, nWorkers + 1, j), BlockStart(n, nWorkers + 1, j + 1), false, j)
  {
    var totalParts := nWorkers + 1;
    var chunkSize := n / totalParts;
    var remainder := n % totalParts;
    start := 0;
    ranges := [];
    tasks := [];
    var i := 0;
    while i < nWorkers
      invariant 0 <= i <= nWorkers
      invariant start == BlockStart(n, totalParts, i)
      invariant |ranges| == i && |tasks| == i
      invariant forall j :: 0 <= j < i ==> ranges[j] == Range(BlockStart(n, totalParts, j), BlockStart(n, totalParts, j + 1))
      invariant forall j :: 0 <= j < i ==>
                  tasks[j] == Task(BlockStart(n, totalParts, j), BlockStart(n, totalParts, j), BlockStart(n, totalParts, j + 1), false, j)
    {
      var end := start + chunkSize + (if i < remainder then 1 else 0);
      NextBlock(n, totalParts, i, chunkSize, remainder);
      ranges := ranges + [Range(start, end)];
      tasks := tasks + [Task(start, start, end, false, i)];
      start := end;
      i := i + 1;
    }
  }

  /** What the split loop of `MasterStart` builds, with the master's own last block appended, satisfies its postcondition. */
  lemma StartSplit(prefix: seq<Range>, tasks: seq<Task>, n: nat, nWorkers: nat)
    requires nWorkers >= 1 && |prefix| == nWorkers && |tasks| == nWorkers
    requires forall j :: 0 <= j < nWorkers ==> prefix[j] == Range(BlockStart(n, nWorkers + 1, j), BlockStart(n, nWorkers + 1, j + 1))
    requires forall j :: 0 <= j < nWorkers ==>
               tasks[j] == Task(BlockStart(n, nWorkers + 1, j), BlockStart(n, nWorkers + 1, j), BlockStart(n, nWorkers + 1, j + 1), false, j)
    ensures var rs := prefix + [Range(BlockStart(n, nWorkers + 1, nWorkers), n)];
            && Tiles(rs, 0, n)
            && (forall i :: 0 <= i < |rs| ==> rs[i].hi - rs[i].lo == BlockLen(n, nWorkers + 1, i))
            && (forall i :: 0 <= i < nWorkers ==> tasks[i] == Task(rs[i].lo, rs[i].lo, rs[i].hi, false, i))
  {
    var rs := prefix + [Range(BlockStart(n, nWorkers + 1, nWorkers), n)];
    StartIsSplit(prefix, n, nWorkers);
    SplitTiles(rs, n, nWorkers + 1);
    forall i | 0 <= i < nWorkers ensures tasks[i] == Task(rs[i].lo, rs[i].lo, rs[i].hi, false, i) {
      assert rs[i] == prefix[i];
    }
  }

  /** The workers' blocks followed by the master's block are the split of `[0, n)`. */
  lemma StartIsSplit(prefix: seq<Range>, n: nat, nWorkers: nat)
    requires nWorkers >= 1 && |prefix| == nWorkers
    requires forall j :: 0 <= j < nWorkers ==> prefix[j] == Range(BlockStart(n, nWorkers + 1, j), BlockStart(n, nWorkers + 1, j + 1))
    ensures IsSplit(prefix + [Range(BlockStart(n, nWorkers + 1, nWorkers), n)], n, nWorkers + 1)
  {
    BlockEnd(n, nWorkers + 1);
  }

  /** The source's `start + chunk_size + (i < remainder ? 1 : 0)` is the start of the next block. */
  lemma NextBlock(n: nat, parts: nat, i: nat, chunkSize: nat, remainder: nat)
    requires parts >= 1 && chunkSize == n / parts && remainder == n % parts
    ensures BlockStart(n, parts, i) + chunkSize + (if i < remainder then 1 else 0) == BlockStart(n, parts, i + 1)
  {
  }

  // ---------------------------------------------------------------------
  // Pairing rounds: send_task
  // ---------------------------------------------------------------------

  function Join(a: Range, b: Range): Range {
    Range(a.lo, b.hi)
  }

  function MergeTask(first: Range, second: Range, id: int): Task {
    Task(first.lo, second.lo, second.hi, true, id)
  }

  /**
   * The left-to-right branch of `send_task`: pops the first two ranges,
   * sends a merge task for them, and appends their union to the new deque;
   * an odd last range is carried over unchanged.  `steps` numbers the tasks.
   */
  function PairFromLeft(rs: seq<Range>, steps: int): (r: Round)
    ensures |r.ranges| == (|rs| + 1) / 2 && |r.tasks| == |rs| / 2
    ensures forall m :: 0 <= m < |rs| / 2 ==> r.tasks[m] == MergeTask(rs[2 * m], rs[2 * m + 1], steps + m)
    ensures forall i :: 0 <= i < |rs| / 2 ==> r.ranges[i] == Join(rs[2 * i], rs[2 * i + 1])
    ensures |rs| % 2 == 1 ==> r.ranges[|rs| / 2] == rs[|rs| - 1]
    decreases |rs|
  {
    if |rs| >= 2 then
      var rest := PairFromLeft(rs[2..], steps + 1);
      Round([Join(rs[0], rs[1])] + rest.ranges, [MergeTask(rs[0], rs[1], steps)] + rest.tasks)
    else Round(rs, [])
  }

  /**
   * The right-to-left branch of `send_task`: pops the last two ranges, sends
   * a merge task for them, and pushes their union at the front of the new
   * deque; an odd first range is carried over unchanged.
   */
  function PairFromRight(rs: seq<Range>, steps: int): (r: Round)
    ensures |r.ranges| == (|rs| + 1) / 2 && |r.tasks| == |rs| / 2
    ensures forall m :: 0 <= m < |rs| / 2 ==>
              r.tasks[m] == MergeTask(rs[|rs| - 2 - 2 * m], rs[|rs| - 1 - 2 * m], steps + m)
    ensures forall m :: 0 <= m < |rs| / 2 ==>
              r.ranges[|r.ranges| - 1 - m] == Join(rs[|rs| - 2 - 2 * m], rs[|rs| - 1 - 2 * m])
    ensures |rs| % 2 == 1 ==> r.ranges[0] == rs[0]
    decreases |rs|
  {
    if |rs| >= 2 then
      var n := |rs|;
      var rest := PairFromRight(rs[..n - 2], steps + 1);
      var out := Round(rest.ranges + [Join(rs[n - 2], rs[n - 1])], [MergeTask(rs[n - 2], rs[n - 1], steps)] + rest.tasks);
      RightStep(rs, rest, steps, out);
      out
    else Round(rs, [])
  }

  /** One step of the right-to-left pairing: the pairing of all but the last two ranges, extended by their union. */
  lemma RightStep(rs: seq<Range>, rest: Round, steps: int, out: Round)
    requires |rs| >= 2
    requires |rest.ranges| == (|rs| - 1) / 2 && |rest.tasks| == (|rs| - 2) / 2
    requires forall m :: 0 <= m < (|rs| - 2) / 2 ==>
               rest.tasks[m] == MergeTask(rs[..|rs| - 2][|rs| - 4 - 2 * m], rs[..|rs| - 2][|rs| - 3 - 2 * m], steps + 1 + m)
    requires forall m :: 0 <= m < (|rs| - 2) / 2 ==>
               rest.ranges[|rest.ranges| - 1 - m] == Join(rs[..|rs| - 2][|rs| - 4 - 2 * m], rs[..|rs| - 2][|rs| - 3 - 2 * m])
    requires (|rs| - 2) % 2 == 1 ==> rest.ranges[0] == rs[..|rs| - 2][0]
    requires out == Round(rest.ranges + [Join(rs[|rs| - 2], rs[|rs| - 1])], [MergeTask(rs[|rs| - 2], rs[|rs| - 1], steps)] + rest.tasks)
    ensures |out.ranges| == (|rs| + 1) / 2 && |out.tasks| == |rs| / 2
    ensures forall m :: 0 <= m < |rs| / 2 ==>
              out.tasks[m] == MergeTask(rs[|rs| - 2 - 2 * m], rs[|rs| - 1 - 2 * m], steps + m)
    ensures forall m :: 0 <= m < |rs| / 2 ==>
              out.ranges[|out.ranges| - 1 - m] == Join(rs[|rs| - 2 - 2 * m], rs[|rs| - 1 - 2 * m])
    ensures |rs| % 2 == 1 ==> out.ranges[0] == rs[0]
  {
    RightStepRanges(rs, rest.ranges);
    RightStepTasks(rs, rest.tasks, steps);
  }

  /** Sending the task for the last two ranges first extends the right-to-left task list by one step. */
  lemma RightStepTasks(rs: seq<Range>, rest: seq<Task>, steps: int)
    requires |rs| >= 2 && |rest| == (|rs| - 2) / 2
    requires forall m :: 0 <= m < (|rs| - 2) / 2 ==>
               rest[m] == MergeTask(rs[..|rs| - 2][|rs| - 4 - 2 * m], rs[..|rs| - 2][|rs| - 3 - 2 * m], steps + 1 + m)
    ensures var out := [MergeTask(rs[|rs| - 2], rs[|rs| - 1], steps)] + rest;
            forall m :: 0 <= m < |rs| / 2 ==> out[m] == MergeTask(rs[|rs| - 2 - 2 * m], rs[|rs| - 1 - 2 * m], steps + m)
  {
    var n := |rs|;
    var out := [MergeTask(rs[n - 2], rs[n - 1], steps)] + rest;
    assert (n - 2) / 2 == n / 2 - 1;
    forall m | 0 <= m < n / 2 ensures out[m] == MergeTask(rs[n - 2 - 2 * m], rs[n - 1 - 2 * m], steps + m) {
      if m > 0 {
        var k := m - 1;
        assert 0 <= k < (n - 2) / 2;
        assert out[m] == rest[k];
        assert rs[..n - 2][n - 4 - 2 * k] == rs[n - 2 - 2 * m];
        assert rs[..n - 2][n - 3 - 2 * k] == rs[n - 1 - 2 * m];
      }
    }
  }

  /** Appending the union of the last two ranges extends the right-to-left pairing by one step. */
  lemma RightStepRanges(rs: seq<Range>, rest: seq<Range>)
    requires |rs| >= 2 && |rest| == (|rs| - 1) / 2
    requires forall m :: 0 <= m < (|rs| - 2) / 2 ==>
               rest[|rest| - 1 - m] == Join(rs[..|rs| - 2][|rs| - 4 - 2 * m], rs[..|rs| - 2][|rs| - 3 - 2 * m])
    ensures var out := rest + [Join(rs[|rs| - 2], rs[|rs| - 1])];
            forall m :: 0 <= m < |rs| / 2 ==> out[|out| - 1 - m] == Join(rs[|rs| - 2 - 2 * m], rs[|rs| - 1 - 2 * m])
  {
    var n := |rs|;
    var out := rest + [Join(rs[n - 2], rs[n - 1])];
    assert (n - 2) / 2 == n / 2 - 1;
    forall m | 0 <= m < n / 2 ensures out[|out| - 1 - m] == Join(rs[n - 2 - 2 * m], rs[n - 1 - 2 * m]) {
      if m > 0 {
        var k := m - 1;
        assert 0 <= k < (n - 2) / 2;
        assert out[|out| - 1 - m] == rest[|rest| - 1 - k];
        assert rs[..n - 2][n - 4 - 2 * k] == rs[n - 2 - 2 * m];
        assert rs[..n - 2][n - 3 - 2 * k] == rs[n - 1 - 2 * m];
      }
    }
  }

  /** The pairing `send_task` performs from the direction `fromLeft`; tasks are numbered from 0. */
  function Pair(rs: seq<Range>, fromLeft: bool): Round {
    if fromLeft then PairFromLeft(rs, 0) else PairFromRight(rs, 0)
  }

  /** Index in `rs` of the first of the two ranges merged by task `m`. */
  function First(n: nat, fromLeft: bool, m: nat): int {
    if fromLeft then 2 * m else n - 2 - 2 * m
  }

  /** Index in `rs` of the unpaired range when `rs` has odd length. */
  function Leftover(n: nat, fromLeft: bool): int {
    if fromLeft then n - 1 else 0
  }

  /** Every task of a round merges two adjacent ranges of the old deque, named by `First`. */
  lemma PairTasks(rs: seq<Range>, fromLeft: bool, m: nat)
    requires m < |Pair(rs, fromLeft).tasks|
    ensures 0 <= First(|rs|, fromLeft, m) && First(|rs|, fromLeft, m) + 1 < |rs|
    ensures Pair(rs, fromLeft).tasks[m] == MergeTask(rs[First(|rs|, fromLeft, m)], rs[First(|rs|, fromLeft, m) + 1], m)
  {
  }

  /**
   * `send_task` replaces `k` ranges by `ceil(k/2)` ranges tiling the same
   * span, and sends `floor(k/2)` tasks.
   */
  lemma PairTiles(rs: seq<Range>, lo: nat, hi: nat, fromLeft: bool)
    requires Tiles(rs, lo, hi)
    ensures |Pair(rs, fromLeft).ranges| == (|rs| + 1) / 2 && |Pair(rs, fromLeft).tasks| == |rs| / 2
    ensures Tiles(Pair(rs, fromLeft).ranges, lo, hi)
  {
    var n := |rs|;
    var out := Pair(rs, fromLeft).ranges;
    if n > 0 {
      forall i | 0 <= i < |out|
        ensures 0 <= Lo(n, fromLeft, i) <= Hi(n, fromLeft, i) < n
        ensures out[i] == Join(rs[Lo(n, fromLeft, i)], rs[Hi(n, fromLeft, i)])
      {
        NewRangeShape(rs, fromLeft, i);
      }
      JoinedTiles(rs, out, lo, hi, fromLeft);
    }
  }

  /** Ranges built by joining old ranges `Lo(i)` through `Hi(i)` of a tiling again tile the same span. */
  lemma JoinedTiles(rs: seq<Range>, out: seq<Range>, lo: nat, hi: nat, fromLeft: bool)
    requires Tiles(rs, lo, hi) && |rs| > 0 && |out| == (|rs| + 1) / 2
    requires forall i :: 0 <= i < |out| ==> 0 <= Lo(|rs|, fromLeft, i) <= Hi(|rs|, fromLeft, i) < |rs|
    requires forall i :: 0 <= i < |out| ==> out[i] == Join(rs[Lo(|rs|, fromLeft, i)], rs[Hi(|rs|, fromLeft, i)])
    ensures Tiles(out, lo, hi)
  {
    JoinedOrdered(rs, out, lo, hi, fromLeft);
    JoinedAdjacent(rs, out, fromLeft);
    LoHiEnds(|rs|, fromLeft);
  }

  /** Each joined range is well formed: it starts no later than it ends. */
  lemma JoinedOrdered(rs: seq<Range>, out: seq<Range>, lo: nat, hi: nat, fromLeft: bool)
    requires Tiles(rs, lo, hi)
    requires forall i :: 0 <= i < |out| ==> 0 <= Lo(|rs|, fromLeft, i) <= Hi(|rs|, fromLeft, i) < |rs|
    requires forall i :: 0 <= i < |out| ==> out[i] == Join(rs[Lo(|rs|, fromLeft, i)], rs[Hi(|rs|, fromLeft, i)])
    ensures forall i :: 0 <= i < |out| ==> out[i].lo <= out[i].hi
  {
    forall i | 0 <= i < |out| ensures out[i].lo <= out[i].hi {
      var a, b := Lo(|rs|, fromLeft, i), Hi(|rs|, fromLeft, i);
      if a < b {
        TilesOrdered(rs, lo, hi, a, b);
      }
    }
  }

  /** Consecutive joined ranges meet, because their old ranges do. */
  lemma JoinedAdjacent(rs: seq<Range>, out: seq<Range>, fromLeft: bool)
    requires |out| == (|rs| + 1) / 2
    requires forall i :: 0 <= i < |rs| - 1 ==> rs[i].hi == rs[i + 1].lo
    requires forall i :: 0 <= i < |out| ==> 0 <= Lo(|rs|, fromLeft, i) <= Hi(|rs|, fromLeft, i) < |rs|
    requires forall i :: 0 <= i < |out| ==> out[i] == Join(rs[Lo(|rs|, fromLeft, i)], rs[Hi(|rs|, fromLeft, i)])
    ensures forall i :: 0 <= i < |out| - 1 ==> out[i].hi == out[i + 1].lo
  {
    forall i | 0 <= i < |out| - 1 ensures out[i].hi == out[i + 1].lo {
      LoHiAdjacent(|rs|, fromLeft, i);
    }
  }

  /** Consecutive new ranges cover consecutive old ranges. */
  lemma LoHiAdjacent(n: nat, fromLeft: bool, i: nat)
    requires i + 1 < (n + 1) / 2
    ensures Hi(n, fromLeft, i) + 1 == Lo(n, fromLeft, i + 1)
  {
  }

  /** The first new range starts at old range 0 and the last ends at old range `n - 1`. */
  lemma LoHiEnds(n: nat, fromLeft: bool)
    requires n > 0
    ensures Lo(n, fromLeft, 0) == 0 && Hi(n, fromLeft, (n + 1) / 2 - 1) == n - 1
  {
  }

  /** Index in `rs` of the first old range inside new range `i`. */
  function Lo(n: nat, fromLeft: bool, i: nat): int {
    if fromLeft then (if i < n / 2 then 2 * i else n - 1)
    else (if n % 2 == 1 && i == 0 then 0 else 2 * i - n % 2)
  }

  /** Index in `rs` of the last old range inside new range `i`. */
  function Hi(n: nat, fromLeft: bool, i: nat): int {
    if fromLeft then (if i < n / 2 then 2 * i + 1 else n - 1)
    else (if n % 2 == 1 && i == 0 then 0 else 2 * i - n % 2 + 1)
  }

  /** New range `i` spans old ranges `Lo` through `Hi`: a pair merged by a task, or the carried-over range. */
  lemma NewRangeShape(rs: seq<Range>, fromLeft: bool, i: nat)
    requires i < |Pair(rs, fromLeft).ranges|
    ensures 0 <= Lo(|rs|, fromLeft, i) <= Hi(|rs|, fromLeft, i) < |rs|
    ensures Pair(rs, fromLeft).ranges[i] == Join(rs[Lo(|rs|, fromLeft, i)], rs[Hi(|rs|, fromLeft, i)])
  {
    if !fromLeft {
      RightRangeShape(rs, i);
    }
  }

  /** `NewRangeShape` for the right-to-left pairing. */
  lemma RightRangeShape(rs: seq<Range>, i: nat)
    requires i < |PairFromRight(rs, 0).ranges|
    ensures 0 <= Lo(|rs|, false, i) <= Hi(|rs|, false, i) < |rs|
    ensures PairFromRight(rs, 0).ranges[i] == Join(rs[Lo(|rs|, false, i)], rs[Hi(|rs|, false, i)])
  {
    var r := PairFromRight(rs, 0);
    RightRangeAt(rs, r.ranges, i);
  }

  /** Any sequence of ranges laid out as the right-to-left pairing lays them out has `Lo`/`Hi` shape. */
  lemma RightRangeAt(rs: seq<Range>, out: seq<Range>, i: nat)
    requires |out| == (|rs| + 1) / 2 && i < |out|
    requires forall m :: 0 <= m < |rs| / 2 ==> out[|out| - 1 - m] == Join(rs[|rs| - 2 - 2 * m], rs[|rs| - 1 - 2 * m])
    requires |rs| % 2 == 1 ==> out[0] == rs[0]
    ensures 0 <= Lo(|rs|, false, i) <= Hi(|rs|, false, i) < |rs|
    ensures out[i] == Join(rs[Lo(|rs|, false, i)], rs[Hi(|rs|, false, i)])
  {
    var n := |rs|;
    if !(n % 2 == 1 && i == 0) {
      var m := RightIndex(n, i);
      assert out[|out| - 1 - m] == Join(rs[n - 2 - 2 * m], rs[n - 1 - 2 * m]);
    } else {
      assert Lo(n, false, i) == 0 && Hi(n, false, i) == 0;
      assert out[0] == rs[0] == Join(rs[0], rs[0]);
    }
  }

  /** New range `i` of a right-to-left round is the one built by task `m`, counted from the end. */
  lemma RightIndex(n: nat, i: nat) returns (m: nat)
    requires i < (n + 1) / 2 && !(n % 2 == 1 && i == 0)
    ensures m < n / 2 && i == (n + 1) / 2 - 1 - m
    ensures Lo(n, false, i) == n - 2 - 2 * m && Hi(n, false, i) == n - 1 - 2 * m
  {
    m := (n + 1) / 2 - 1 - i;
  }

  /**
   * The task that produced new range `i`, when it was produced by a merge;
   * otherwise `i` is the carried-over odd range.
   */
  lemma NewRangeOrigin(rs: seq<Range>, fromLeft: bool, i: nat) returns (joined: bool, m: nat)
    requires i < |Pair(rs, fromLeft).ranges|
    ensures joined ==> m < |Pair(rs, fromLeft).tasks| && First(|rs|, fromLeft, m) == Lo(|rs|, fromLeft, i)
    ensures joined ==> Hi(|rs|, fromLeft, i) == Lo(|rs|, fromLeft, i) + 1
    ensures !joined ==> |rs| % 2 == 1 && Lo(|rs|, fromLeft, i) == Hi(|rs|, fromLeft, i) == Leftover(|rs|, fromLeft)
  {
    var n := |rs|;
    if fromLeft {
      joined, m := i < n / 2, i;
    } else if n % 2 == 1 && i == 0 {
      joined, m := false, 0;
    } else {
      joined, m := true, (n + 1) / 2 - 1 - i;
    }
  }

  /** Two ranges share no position. */
  predicate Disjoint(a: Range, b: Range) {
    a.hi <= b.lo || b.hi <= a.lo
  }

  function Span(t: Task): Range {
    Range(t.left, t.right)
  }

  /** The tasks of one round name pairwise-disjoint ranges. */
  lemma PairDisjoint(rs: seq<Range>, lo: nat, hi: nat, fromLeft: bool, a: nat, b: nat)
    requires Tiles(rs, lo, hi) && a < b < |Pair(rs, fromLeft).tasks|
    ensures Disjoint(Span(Pair(rs, fromLeft).tasks[a]), Span(Pair(rs, fromLeft).tasks[b]))
  {
    PairTasks(rs, fromLeft, a);
    PairTasks(rs, fromLeft, b);
    var n := |rs|;
    if fromLeft {
      TilesOrdered(rs, lo, hi, First(n, fromLeft, a) + 1, First(n, fromLeft, b));
    } else {
      TilesOrdered(rs, lo, hi, First(n, fromLeft, b) + 1, First(n, fromLeft, a));
    }
  }

  /** No task of a round touches the carried-over odd range. */
  lemma LeftoverUntouched(rs: seq<Range>, lo: nat, hi: nat, fromLeft: bool, m: nat)
    requires Tiles(rs, lo, hi) && |rs| % 2 == 1 && m < |Pair(rs, fromLeft).tasks|
    ensures Disjoint(Span(Pair(rs, fromLeft).tasks[m]), rs[Leftover(|rs|, fromLeft)])
  {
    PairTasks(rs, fromLeft, m);
    var n := |rs|;
    if fromLeft {
      TilesOrdered(rs, lo, hi, First(n, fromLeft, m) + 1, n - 1);
    } else {
      TilesOrdered(rs, lo, hi, 0, First(n, fromLeft, m));
    }
  }

  // ---------------------------------------------------------------------
  // Workers and the combined effect of one round of tasks
  // ---------------------------------------------------------------------

  /** The task's indices are ordered and lie inside an array of length `n`. */
  predicate TaskFits(t: Task, n: nat) {
    t.left <= t.mid <= t.right <= n
  }

  /**
   * What a task leaves in its range of `d`: the stable sort of the range, or
   * the stable merge of its two halves.
   */
  function TaskResult(d: seq<Record>, t: Task): seq<Record>
    requires TaskFits(t, |d|)
  {
    if t.isSorted then MergeSeq(d[t.left..t.mid], d[t.mid..t.right]) else StableSort(d[t.left..t.right])
  }

  /** A task's result depends only on the records in its own range. */
  lemma TaskResultLocal(d: seq<Record>, e: seq<Record>, t: Task)
    requires TaskFits(t, |d|) && TaskFits(t, |e|) && d[t.left..t.right] == e[t.left..t.right]
    ensures TaskResult(d, t) == TaskResult(e, t)
  {
    SubSlices(d, t.left, t.mid, t.right);
    SubSlices(e, t.left, t.mid, t.right);
  }

  /** The two halves of a slice are slices of the slice. */
  lemma SubSlices(s: seq<Record>, a: nat, b: nat, c: nat)
    requires a <= b <= c <= |s|
    ensures s[a..b] == s[a..c][..b - a] && s[b..c] == s[a..c][b - a..]
  {
  }

  /**
   * `Worker::svc`: an unsorted task sorts its range with the sequential
   * merge sort, a sorted one merges its two halves; the task goes back
   * marked sorted.  Both arrays change only inside the task's range, which
   * is why workers can share `data` and `tmp`.
   */
  method WorkerSvc(data: seq<Record>, tmp: seq<Record>, t: Task) returns (data': seq<Record>, tmp': seq<Record>, t': Task)
    requires TaskFits(t, |data|) && t.right <= |tmp|
    ensures SameOutside(data', data, t.left, t.right) && SameOutside(tmp', tmp, t.left, t.right)
    ensures data'[t.left..t.right] == TaskResult(data, t)
    ensures t' == t.(isSorted := true)
  {
    if !t.isSorted {
      data', tmp' := MergeSortSeq(data, tmp, t.left, t.right);
      StableSortUnique(data'[t.left..t.right], StableSort(data[t.left..t.right]), data[t.left..t.right]);
    } else {
      data', tmp' := Merge(data, tmp, t.left, t.mid, t.right);
    }
    t' := t.(isSorted := true);
  }

  /** No task of `ts` covers position `p`. */
  predicate Untouched(p: nat, ts: seq<Task>) {
    forall t :: t in ts ==> !(t.left <= p < t.right)
  }

  /** The tasks of `ts` name pairwise-disjoint ranges. */
  predicate PairwiseDisjoint(ts: seq<Task>) {
    forall a, b :: 0 <= a < b < |ts| ==> Disjoint(Span(ts[a]), Span(ts[b]))
  }

  /**
   * `d'` is `d` after every task of `ts` has run: each task's range holds the
   * task's result on `d`, and every position no task covers is unchanged.
   * The predicate mentions `ts` only through membership, so it does not
   * depend on the order in which the tasks ran.
   */
  ghost predicate Executed(d: seq<Record>, d': seq<Record>, ts: seq<Task>) {
    && |d'| == |d|
    && (forall t :: t in ts ==> TaskFits(t, |d|) && d'[t.left..t.right] == TaskResult(d, t))
    && (forall p {:trigger Untouched(p, ts)} :: 0 <= p < |d| && Untouched(p, ts) ==> d'[p] == d[p])
  }

  /** The effect of a set of tasks is determined: all executions agree. */
  lemma ExecutedUnique(d: seq<Record>, d1: seq<Record>, d2: seq<Record>, ts: seq<Task>)
    requires Executed(d, d1, ts) && Executed(d, d2, ts)
    ensures d1 == d2
  {
    forall p | 0 <= p < |d| ensures d1[p] == d2[p] {
      if !Untouched(p, ts) {
        var t := CoveringTask(p, ts);
        ExecutedAt(d, d1, ts, t, p);
        ExecutedAt(d, d2, ts, t, p);
      }
    }
  }

  /** A position covered by task `t` holds the corresponding record of the task's result. */
  lemma ExecutedAt(d: seq<Record>, d': seq<Record>, ts: seq<Task>, t: Task, p: nat)
    requires Executed(d, d', ts) && t in ts && t.left <= p < t.right
    ensures p - t.left < |TaskResult(d, t)| && d'[p] == TaskResult(d, t)[p - t.left]
  {
    assert d'[p] == d'[t.left..t.right][p - t.left];
  }

  /** A position that is not untouched lies in the range of some task. */
  lemma CoveringTask(p: nat, ts: seq<Task>) returns (t: Task)
    requires !Untouched(p, ts)
    ensures t in ts && t.left <= p < t.right
  {
    t :| t in ts && t.left <= p < t.right;
  }

  /**
   * The workers run the tasks of one dispatch, in any order; here they run
   * in list order, and `Executed` shows the order is immaterial.
   */
  method RunTasks(data: seq<Record>, tmp: seq<Record>, ts: seq<Task>) returns (data': seq<Record>, tmp': seq<Record>)
    requires forall t :: t in ts ==> TaskFits(t, |data|) && t.right <= |tmp|
    requires PairwiseDisjoint(ts)
    ensures Executed(data, data', ts)
    ensures |tmp'| == |tmp|
  {
    data', tmp' := data, tmp;
    var i := 0;
    while i < |ts|
      invariant 0 <= i <= |ts| && |tmp'| == |tmp|
      invariant Executed(data, data', ts[..i])
    {
      var t := ts[i];
      var before := data';
      assert ts[..i + 1] == ts[..i] + [t];
      RunOneFresh(data, before, ts, i);
      var done;
      data', tmp', done := WorkerSvc(data', tmp', t);
      TaskResultLocal(before, data, t);
      RunOneStep(data, before, data', ts, i);
      i := i + 1;
    }
    assert ts[..|ts|] == ts;
  }

  /** Before task `i` runs, its range still holds the original records. */
  lemma RunOneFresh(d: seq<Record>, cur: seq<Record>, ts: seq<Task>, i: nat)
    requires i < |ts| && PairwiseDisjoint(ts) && TaskFits(ts[i], |d|)
    requires Executed(d, cur, ts[..i])
    ensures cur[ts[i].left..ts[i].right] == d[ts[i].left..ts[i].right]
  {
    var t := ts[i];
    forall p | t.left <= p < t.right ensures cur[p] == d[p] {
      forall u | u in ts[..i] ensures !(u.left <= p < u.right) {
        var a :| 0 <= a < i && ts[..i][a] == u;
        assert Disjoint(Span(ts[a]), Span(ts[i]));
      }
      assert Untouched(p, ts[..i]);
    }
  }

  /** Running task `i` extends an execution of `ts[..i]` to one of `ts[..i + 1]`. */
  lemma RunOneStep(d: seq<Record>, cur: seq<Record>, next: seq<Record>, ts: seq<Task>, i: nat)
    requires i < |ts| && PairwiseDisjoint(ts) && TaskFits(ts[i], |d|)
    requires Executed(d, cur, ts[..i])
    requires SameOutside(next, cur, ts[i].left, ts[i].right)
    requires next[ts[i].left..ts[i].right] == TaskResult(d, ts[i])
    ensures Executed(d, next, ts[..i + 1])
  {
    var t := ts[i];
    assert ts[..i + 1] == ts[..i] + [t];
    forall u | u in ts[..i + 1] ensures TaskFits(u, |d|) && next[u.left..u.right] == TaskResult(d, u) {
      if u != t {
        var a :| 0 <= a < i && ts[..i][a] == u;
        assert Disjoint(Span(ts[a]), Span(ts[i]));
        SameOutsideSlice(next, cur, t.left, t.right, u.left, u.right);
      }
    }
    forall p | 0 <= p < |d| && Untouched(p, ts[..i + 1]) ensures next[p] == d[p] {
      assert t in ts[..i + 1];
      assert Untouched(p, ts[..i]);
    }
  }

  /** A task of an execution leaves its result in its range. */
  lemma ExecutedRange(d: seq<Record>, d': seq<Record>, ts: seq<Task>, t: Task)
    requires Executed(d, d', ts) && t in ts
    ensures TaskFits(t, |d|) && t.right <= |d'| && d'[t.left..t.right] == TaskResult(d, t)
  {
  }

  // ---------------------------------------------------------------------
  // The round invariant: every range of the deque is sorted
  // ---------------------------------------------------------------------

  /**
   * `rs` tiles `[0, |orig|)` and each of its ranges holds, in `d`, the stable
   * sort of the same range of the original array `orig`.
   */
  ghost predicate RangesSorted(d: seq<Record>, orig: seq<Record>, rs: seq<Range>) {
    && |d| == |orig| && Tiles(rs, 0, |orig|)
    && forall i :: 0 <= i < |rs| ==>
         rs[i].lo <= rs[i].hi <= |d| && StableSortOf(d[rs[i].lo..rs[i].hi], orig[rs[i].lo..rs[i].hi])
  }

  /** Merging two adjacent stably sorted ranges yields the stably sorted union. */
  lemma MergedRangeSorted(d: seq<Record>, d': seq<Record>, orig: seq<Record>, lo: nat, mid: nat, hi: nat)
    requires lo <= mid <= hi <= |d| == |orig| == |d'|
    requires StableSortOf(d[lo..mid], orig[lo..mid]) && StableSortOf(d[mid..hi], orig[mid..hi])
    requires d'[lo..hi] == MergeSeq(d[lo..mid], d[mid..hi])
    ensures StableSortOf(d'[lo..hi], orig[lo..hi])
  {
    var a, b, ia, ib, out := d[lo..mid], d[mid..hi], orig[lo..mid], orig[mid..hi], d'[lo..hi];
    assert ia + ib == orig[lo..hi];
    MergeSeqLaws(a, b);
    StableConcat(a, b, ia, ib, out);
  }

  /** A range no task touches keeps its contents, and so stays sorted. */
  lemma CarriedRangeSorted(d: seq<Record>, d': seq<Record>, orig: seq<Record>, lo: nat, hi: nat)
    requires lo <= hi <= |d| == |orig| == |d'|
    requires StableSortOf(d[lo..hi], orig[lo..hi])
    requires forall p :: lo <= p < hi ==> d'[p] == d[p]
    ensures StableSortOf(d'[lo..hi], orig[lo..hi])
  {
    assert d'[lo..hi] == d[lo..hi];
  }

  /** New range `i` of a round is sorted once the round's tasks have run. */
  lemma NewRangeSorted(d: seq<Record>, d': seq<Record>, orig: seq<Record>, rs: seq<Range>, fromLeft: bool, i: nat)
    requires RangesSorted(d, orig, rs) && |d'| == |d|
    requires Executed(d, d', Pair(rs, fromLeft).tasks)
    requires i < |Pair(rs, fromLeft).ranges|
    ensures var r := Pair(rs, fromLeft).ranges[i];
            r.lo <= r.hi <= |d'| && StableSortOf(d'[r.lo..r.hi], orig[r.lo..r.hi])
  {
    NewRangeShape(rs, fromLeft, i);
    var joined, m := NewRangeOrigin(rs, fromLeft, i);
    if joined {
      NewJoinedSorted(d, d', orig, rs, fromLeft, i, m);
    } else {
      NewCarriedSorted(d, d', orig, rs, fromLeft, i);
    }
  }

  /** New range `i`, produced by merge task `m`, is sorted once the task has run. */
  lemma NewJoinedSorted(d: seq<Record>, d': seq<Record>, orig: seq<Record>, rs: seq<Range>, fromLeft: bool, i: nat, m: nat)
    requires RangesSorted(d, orig, rs) && |d'| == |d|
    requires Executed(d, d', Pair(rs, fromLeft).tasks)
    requires i < |Pair(rs, fromLeft).ranges| && m < |Pair(rs, fromLeft).tasks|
    requires 0 <= Lo(|rs|, fromLeft, i) && Hi(|rs|, fromLeft, i) == Lo(|rs|, fromLeft, i) + 1 < |rs|
    requires First(|rs|, fromLeft, m) == Lo(|rs|, fromLeft, i)
    requires Pair(rs, fromLeft).ranges[i] == Join(rs[Lo(|rs|, fromLeft, i)], rs[Hi(|rs|, fromLeft, i)])
    ensures var r := Pair(rs, fromLeft).ranges[i];
            r.lo <= r.hi <= |d'| && StableSortOf(d'[r.lo..r.hi], orig[r.lo..r.hi])
  {
    var ts := Pair(rs, fromLeft).tasks;
    PairTasks(rs, fromLeft, m);
    assert ts[m] in ts;
    JoinedRangeSorted(d, d', orig, rs, ts, Lo(|rs|, fromLeft, i), ts[m]);
  }

  /** The carried-over odd range is untouched by the round and stays sorted. */
  lemma NewCarriedSorted(d: seq<Record>, d': seq<Record>, orig: seq<Record>, rs: seq<Range>, fromLeft: bool, i: nat)
    requires RangesSorted(d, orig, rs) && |d'| == |d|
    requires Executed(d, d', Pair(rs, fromLeft).tasks)
    requires i < |Pair(rs, fromLeft).ranges| && |rs| % 2 == 1
    requires Lo(|rs|, fromLeft, i) == Hi(|rs|, fromLeft, i) == Leftover(|rs|, fromLeft)
    requires Pair(rs, fromLeft).ranges[i] == Join(rs[Lo(|rs|, fromLeft, i)], rs[Hi(|rs|, fromLeft, i)])
    ensures var r := Pair(rs, fromLeft).ranges[i];
            r.lo <= r.hi <= |d'| && StableSortOf(d'[r.lo..r.hi], orig[r.lo..r.hi])
  {
    LeftoverUntouchedAll(rs, 0, |orig|, fromLeft);
    CarriedRangeStaysSorted(d, d', orig, rs, Pair(rs, fromLeft).tasks, Leftover(|rs|, fromLeft));
  }

  /** No task of a round with an odd number of ranges touches the carried-over range. */
  lemma LeftoverUntouchedAll(rs: seq<Range>, lo: nat, hi: nat, fromLeft: bool)
    requires Tiles(rs, lo, hi) && |rs| % 2 == 1
    ensures 0 <= Leftover(|rs|, fromLeft) < |rs|
    ensures forall t :: t in Pair(rs, fromLeft).tasks ==> Disjoint(Span(t), rs[Leftover(|rs|, fromLeft)])
  {
    var ts := Pair(rs, fromLeft).tasks;
    forall t | t in ts ensures Disjoint(Span(t), rs[Leftover(|rs|, fromLeft)]) {
      var k :| 0 <= k < |ts| && ts[k] == t;
      LeftoverUntouched(rs, lo, hi, fromLeft, k);
    }
  }

  /** The range joined by a merge task is sorted after the task has run. */
  lemma JoinedRangeSorted(d: seq<Record>, d': seq<Record>, orig: seq<Record>, rs: seq<Range>, ts: seq<Task>, a: nat, t: Task)
    requires RangesSorted(d, orig, rs) && |d'| == |d| && a + 1 < |rs|
    requires Executed(d, d', ts) && t in ts && t == MergeTask(rs[a], rs[a + 1], t.id)
    ensures rs[a].lo <= rs[a + 1].hi <= |d'| && StableSortOf(d'[rs[a].lo..rs[a + 1].hi], orig[rs[a].lo..rs[a + 1].hi])
  {
    TilesWithin(rs, 0, |orig|, a);
    TilesWithin(rs, 0, |orig|, a + 1);
    ExecutedRange(d, d', ts, t);
    MergedRangeSorted(d, d', orig, rs[a].lo, rs[a + 1].lo, rs[a + 1].hi);
  }

  /** A range disjoint from every task of an execution is still sorted afterwards. */
  lemma CarriedRangeStaysSorted(d: seq<Record>, d': seq<Record>, orig: seq<Record>, rs: seq<Range>, ts: seq<Task>, a: nat)
    requires RangesSorted(d, orig, rs) && |d'| == |d| && a < |rs|
    requires Executed(d, d', ts) && forall t :: t in ts ==> Disjoint(Span(t), rs[a])
    ensures rs[a].lo <= rs[a].hi <= |d'| && StableSortOf(d'[rs[a].lo..rs[a].hi], orig[rs[a].lo..rs[a].hi])
  {
    forall p | rs[a].lo <= p < rs[a].hi ensures d'[p] == d[p] {
      assert Untouched(p, ts);
    }
    CarriedRangeSorted(d, d', orig, rs[a].lo, rs[a].hi);
  }

  /**
   * The round invariant: if every range is sorted before `send_task`, then
   * once the round's tasks have run, every range of the new deque is sorted.
   */
  lemma RoundKeepsRangesSorted(d: seq<Record>, d': seq<Record>, orig: seq<Record>, rs: seq<Range>, fromLeft: bool)
    requires RangesSorted(d, orig, rs) && |d'| == |d|
    requires Executed(d, d', Pair(rs, fromLeft).tasks)
    ensures RangesSorted(d', orig, Pair(rs, fromLeft).ranges)
  {
    var out := Pair(rs, fromLeft).ranges;
    PairTiles(rs, 0, |orig|, fromLeft);
    forall i | 0 <= i < |out|
      ensures out[i].lo <= out[i].hi <= |d'| && StableSortOf(d'[out[i].lo..out[i].hi], orig[out[i].lo..out[i].hi])
    {
      NewRangeSorted(d, d', orig, rs, fromLeft, i);
    }
  }

  /** The tasks of a round fit the array and name pairwise-disjoint ranges. */
  lemma RoundTasksWellFormed(rs: seq<Range>, total: nat, fromLeft: bool)
    requires Tiles(rs, 0, total)
    ensures forall t :: t in Pair(rs, fromLeft).tasks ==> TaskFits(t, total)
    ensures PairwiseDisjoint(Pair(rs, fromLeft).tasks)
  {
    var ts := Pair(rs, fromLeft).tasks;
    forall t | t in ts ensures TaskFits(t, total) {
      var m :| 0 <= m < |ts| && ts[m] == t;
      RoundTaskFits(rs, total, fromLeft, m);
    }
    forall a, b | 0 <= a < b < |ts| ensures Disjoint(Span(ts[a]), Span(ts[b])) {
      PairDisjoint(rs, 0, total, fromLeft, a, b);
    }
  }

  /** Task `m` of a round fits the array. */
  lemma RoundTaskFits(rs: seq<Range>, total: nat, fromLeft: bool, m: nat)
    requires Tiles(rs, 0, total) && m < |Pair(rs, fromLeft).tasks|
    ensures TaskFits(Pair(rs, fromLeft).tasks[m], total)
  {
    PairTasks(rs, fromLeft, m);
    var f := First(|rs|, fromLeft, m);
    TilesWithin(rs, 0, total, f);
    TilesWithin(rs, 0, total, f + 1);
  }

  /** The first-phase tasks: one sort task per block, the master's own last. */
  predicate FirstPhaseTasks(rs: seq<Range>, ts: seq<Task>) {
    |ts| == |rs| && forall i :: 0 <= i < |ts| ==> ts[i] == Task(rs[i].lo, rs[i].lo, rs[i].hi, false, i)
  }

  /** The first-phase tasks fit the array and name pairwise-disjoint ranges. */
  lemma FirstTasksWellFormed(rs: seq<Range>, ts: seq<Task>, total: nat)
    requires Tiles(rs, 0, total) && FirstPhaseTasks(rs, ts)
    ensures forall t :: t in ts ==> TaskFits(t, total)
    ensures PairwiseDisjoint(ts)
  {
    forall t | t in ts ensures TaskFits(t, total) {
      var i :| 0 <= i < |ts| && ts[i] == t;
      TilesWithin(rs, 0, total, i);
    }
    forall a, b | 0 <= a < b < |ts| ensures Disjoint(Span(ts[a]), Span(ts[b])) {
      TilesOrdered(rs, 0, total, a, b);
    }
  }

  /** After the first phase every block is stably sorted. */
  lemma FirstPhaseSorted(d: seq<Record>, d': seq<Record>, rs: seq<Range>, ts: seq<Task>)
    requires Tiles(rs, 0, |d|) && FirstPhaseTasks(rs, ts) && Executed(d, d', ts)
    ensures RangesSorted(d', d, rs)
  {
    forall i | 0 <= i < |rs|
      ensures rs[i].lo <= rs[i].hi <= |d'| && StableSortOf(d'[rs[i].lo..rs[i].hi], d[rs[i].lo..rs[i].hi])
    {
      TilesWithin(rs, 0, |d|, i);
      assert ts[i] in ts;
      ExecutedRange(d, d', ts, ts[i]);
    }
  }

  /** When one range is left it is the whole array, which is then its stable sort. */
  lemma LastRangeIsAll(d: seq<Record>, orig: seq<Record>, rs: seq<Range>)
    requires RangesSorted(d, orig, rs) && |rs| == 1
    ensures d == StableSort(orig)
  {
    assert d[rs[0].lo..rs[0].hi] == d;
    assert orig[rs[0].lo..rs[0].hi] == orig;
    StableSortUnique(d, StableSort(orig), orig);
  }

  // ---------------------------------------------------------------------
  // The master's countdown and the direction flag
  // ---------------------------------------------------------------------

  /**
   * `send_task` as written: it pairs the deque from the direction stored in
   * the member `from_left`, sets the countdown to the number of tasks sent,
   * and then negates its own parameter, which shadows the member.  The
   * member keeps its value.
   */
  function SendTask(m: Master): (r: (Master, seq<Task>))
    ensures |r.0.ranges| == (|m.ranges| + 1) / 2 && r.0.nSent == |r.1| == |m.ranges| / 2
    ensures r.0.fromLeft == m.fromLeft
  {
    var round := Pair(m.ranges, m.fromLeft);
    (Master(round.ranges, |round.tasks|, m.fromLeft), round.tasks)
  }

  /** `send_task` as its comment intends: the next round pairs from the other end. */
  function SendTaskAlternating(m: Master): (r: (Master, seq<Task>))
    ensures |r.0.ranges| == (|m.ranges| + 1) / 2 && r.0.nSent == |r.1| == |m.ranges| / 2
    ensures r.0.fromLeft == !m.fromLeft
  {
    var round := Pair(m.ranges, m.fromLeft);
    (Master(round.ranges, |round.tasks|, !m.fromLeft), round.tasks)
  }

  /**
   * As written, every round pairs from the front, so an odd range count
   * always carries the LAST range over unmerged.
   */
  lemma AsWrittenLeftoverAlwaysLast(m: Master, k: nat)
    requires m.fromLeft
    ensures Iterate(m, k, false).fromLeft
    ensures |Iterate(m, k, false).ranges| % 2 == 1 ==>
              Last(SendTask(Iterate(m, k, false)).0.ranges) == Last(Iterate(m, k, false).ranges)
  {
    AsWrittenNeverFlips(m, k);
    var mk := Iterate(m, k, false);
    if |mk.ranges| % 2 == 1 {
      PairLeftoverLast(mk.ranges);
    }
  }

  /** As written, no number of rounds changes the member `from_left`. */
  lemma {:induction false} AsWrittenNeverFlips(m: Master, k: nat)
    ensures Iterate(m, k, false).fromLeft == m.fromLeft
    decreases k
  {
    if k > 0 {
      AsWrittenNeverFlips(m, k - 1);
    }
  }

  /** Pairing from the front an odd number of ranges carries the last one over. */
  lemma PairLeftoverLast(rs: seq<Range>)
    requires |rs| % 2 == 1
    ensures |Pair(rs, true).ranges| > 0 && Last(Pair(rs, true).ranges) == Last(rs)
  {
  }

  /** With the direction flipped, a second odd round carries the FIRST range over instead. */
  lemma AlternatingLeftoverMoves(m: Master)
    requires m.fromLeft && |m.ranges| % 2 == 1 && |SendTaskAlternating(m).0.ranges| % 2 == 1
    ensures var m1 := SendTaskAlternating(m).0;
            !m1.fromLeft && |SendTaskAlternating(m1).0.ranges| > 0 && SendTaskAlternating(m1).0.ranges[0] == m1.ranges[0]
  {
  }

  function Last(rs: seq<Range>): Range
    requires |rs| > 0
  {
    rs[|rs| - 1]
  }

  /** `k` successive rounds of `send_task`, as written or alternating. */
  function Iterate(m: Master, k: nat, alternate: bool): Master
    decreases k
  {
    if k == 0 then m
    else
      var prev := Iterate(m, k - 1, alternate);
      if alternate then SendTaskAlternating(prev).0 else SendTask(prev).0
  }

  /**
   * Five blocks, two rounds.  As written the master's own last block is
   * carried over twice and first merged in the third round; with the
   * direction flipped it is merged in the second.
   */
  lemma FiveBlocksExample()
    ensures var rs := [Range(0, 1), Range(1, 2), Range(2, 3), Range(3, 4), Range(4, 5)];
            var m := Master(rs, 1, true);
            && Iterate(m, 2, false).ranges == [Range(0, 4), Range(4, 5)]
            && Iterate(m, 2, true).ranges == [Range(0, 2), Range(2, 5)]
  {
    var rs := [Range(0, 1), Range(1, 2), Range(2, 3), Range(3, 4), Range(4, 5)];
    var m := Master(rs, 1, true);
    assert Iterate(m, 1, false).ranges == [Range(0, 2), Range(2, 4), Range(4, 5)];
    assert Iterate(m, 1, true).ranges == [Range(0, 2), Range(2, 4), Range(4, 5)];
  }

  /**
   * `Master::svc` on a returned task: decrement the countdown; unless it
   * reached zero, wait.  At zero, broadcast end-of-stream when one range is
   * left, otherwise start the next round.
   */
  function MasterSvc(m: Master, alternate: bool): (r: (Master, Action))
    ensures r.1.Wait? <==> m.nSent != 1
    ensures r.1.Broadcast? <==> m.nSent == 1 && |m.ranges| == 1
    ensures !r.1.Dispatch? ==> r.0 == m.(nSent := m.nSent - 1)
    ensures r.1.Dispatch? ==>
              && r.0.ranges == Pair(m.ranges, m.fromLeft).ranges
              && r.1.tasks == Pair(m.ranges, m.fromLeft).tasks
              && r.0.nSent == |r.1.tasks| == |m.ranges| / 2
              && r.0.fromLeft == (if alternate then !m.fromLeft else m.fromLeft)
  {
    var m1 := m.(nSent := m.nSent - 1);
    if m1.nSent != 0 then (m1, Wait)
    else if |m1.ranges| == 1 then (m1, Broadcast)
    else
      var next := if alternate then SendTaskAlternating(m1) else SendTask(m1);
      (next.0, Dispatch(next.1))
  }

  // ---------------------------------------------------------------------
  // Number of rounds
  // ---------------------------------------------------------------------

  /** Merge rounds needed to reduce `k` ranges to one, halving (rounding up) each round. */
  function Rounds(k: nat): nat
    decreases k
  {
    if k <= 1 then 0 else 1 + Rounds((k + 1) / 2)
  }

  /** `Rounds(k)` is the ceiling of the base-2 logarithm of `k`. */
  lemma {:induction false} RoundsIsCeilLog2(k: nat)
    requires k >= 1
    ensures k <= Pow2(Rounds(k))
    ensures k >= 2 ==> Rounds(k) >= 1 && Pow2(Rounds(k) - 1) < k
    decreases k
  {
    if k >= 2 {
      var h := (k + 1) / 2;
      RoundsIsCeilLog2(h);
      assert Pow2(Rounds(k)) == 2 * Pow2(Rounds(h));
      if h >= 2 {
        assert Pow2(Rounds(h)) == 2 * Pow2(Rounds(h) - 1);
      }
    }
  }

  // ---------------------------------------------------------------------
  // The whole farm
  // ---------------------------------------------------------------------

  /**
   * The farm run to completion with `nWorkers` workers: the first phase
   * sorts the `nWorkers + 1` blocks (the master sorts the last block itself,
   * alongside the workers), then the master reacts to each returned task
   * until it broadcasts end-of-stream.  Returns the final array and the
   * number of merge rounds.  `alternate` selects the corrected `send_task`.
   */
  method FarmSort(data: seq<Record>, tmp: seq<Record>, nWorkers: nat, alternate: bool)
    returns (out: seq<Record>, rounds: nat)
    requires nWorkers >= 1 && |tmp| >= |data|
    ensures out == StableSort(data)
    ensures rounds == Rounds(nWorkers + 1)
  {
    var m, tasks := MasterStart(|data|, nWorkers);
    var own := m.ranges[nWorkers];
    var first := tasks + [Task(own.lo, own.lo, own.hi, false, nWorkers)];
    assert FirstPhaseTasks(m.ranges, first);
    FirstTasksWellFormed(m.ranges, first, |data|);
    var d, t := RunTasks(data, tmp, first);
    FirstPhaseSorted(data, d, m.ranges, first);
    rounds := 0;
    while true
      invariant RangesSorted(d, data, m.ranges) && |t| >= |data|
      invariant m.nSent >= 1 && |m.ranges| >= 1
      invariant rounds + Rounds(|m.ranges|) == Rounds(nWorkers + 1)
      decreases |m.ranges|, m.nSent
    {
      var next, act := MasterSvc(m, alternate).0, MasterSvc(m, alternate).1;
      if act.Broadcast? {
        break;
      } else if act.Wait? {
        m := next;
      } else {
        RoundTasksWellFormed(m.ranges, |data|, m.fromLeft);
        var d', t' := RunTasks(d, t, act.tasks);
        RoundKeepsRangesSorted(d, d', data, m.ranges, m.fromLeft);
        PairTiles(m.ranges, 0, |data|, m.fromLeft);
        d, t := d', t';
        m := next;
        rounds := rounds + 1;
      }
    }
    LastRangeIsAll(d, data, m.ranges);
    out := d;
  }

  /**
   * The program's sorting step: with one thread the sequential merge sort
   * runs on the whole array and no farm is built; otherwise a farm with
   * `nThreads - 1` workers runs.  Both give the same array.
   */
  method ParallelMain(data: seq<Record>, nThreads: nat, plen: nat) returns (out: seq<Record>)
    requires nThreads >= 1
    ensures out == StableSort(data)
  {
    var tmp := seq(|data|, _ => DefaultRecord(plen));
    if nThreads == 1 {
      var tmp';
      out, tmp' := MergeSortSeq(data, tmp, 0, |data|);
      assert out[0..|data|] == out && data[0..|data|] == data;
      StableSortUnique(out, StableSort(data), data);
    } else {
      var rounds;
      out, rounds := FarmSort(data, tmp, nThreads - 1, false);
    }
  }
}
