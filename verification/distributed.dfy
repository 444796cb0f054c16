/**
 * The MPI engine end to end (Assignment4/MergeSort_Code/mergesort_mpi.cpp).
 *
 * The master splits the input into `size` blocks and streams block `r` to
 * rank `r`; every process sorts its block with the single-node engine
 * (`internal_work`); then the processes merge along the tree of
 * `get_merge_partners`: a receiver appends the incoming records chunk by
 * chunk, merging each chunk into its sorted data, and a process leaving the
 * tree streams its sorted data to its parent.  Rank 0 ends with the stable
 * sort of the whole input.
 *
 * Processes are simulated one at a time, highest rank first.  Every receive
 * of a process is from a higher rank, so this order delivers every stream
 * before it is read.
 */
module Distributed {
  import opened Outcomes
  import opened Records
  import opened Order
  import opened Kernel
  import opened Blocks
  import opened Bits
  import opened Farm
  import opened Partners
  import opened Transport

  /** Why a step has undefined behaviour in the source. */
  datatype Failure = IndexPastEnd

  // ---------------------------------------------------------------------
  // internal_work, as written and corrected
  // ---------------------------------------------------------------------

  /**
   * `internal_work` as written (mergesort_mpi.cpp:255-282): with one thread
   * it sorts the range `[0, total)`, `total` being the global SIZE, whatever
   * the length of the array it was handed; past the end of `data` the
   * source indexes out of bounds.
   */
  method InternalWorkAsWritten(data: seq<Record>, tmp: seq<Record>, total: nat, nThreads: nat)
    returns (r: Result<seq<Record>, Failure>)
    requires nThreads >= 1 && |tmp| >= |data|
    ensures nThreads > 1 ==> r == Ok(StableSort(data))
    ensures nThreads == 1 ==> (r.Ok? <==> total <= |data|)
    ensures nThreads == 1 && r.Ok? ==> r.value == StableSort(data[..total]) + data[total..]
  {
    if nThreads == 1 {
      if total > |data| {
        r := Err(IndexPastEnd);
      } else {
        var v, tmp' := MergeSortSeq(data, tmp, 0, total);
        StableSortUnique(v[0..total], StableSort(data[0..total]), data[0..total]);
        assert v == v[0..total] + v[total..];
        assert v[total..] == data[total..];
        r := Ok(v);
      }
    } else {
      var out := InternalWork(data, tmp, nThreads);
      r := Ok(out);
    }
  }

  /**
   * `internal_work` with the range it sorts taken from the array it is
   * handed: the stable sort of `data`, whatever the number of threads.
   */
  method InternalWork(data: seq<Record>, tmp: seq<Record>, nThreads: nat) returns (out: seq<Record>)
    requires nThreads >= 1 && |tmp| >= |data|
    ensures out == StableSort(data)
  {
    if nThreads == 1 {
      var tmp';
      out, tmp' := MergeSortSeq(data, tmp, 0, |data|);
      assert out[0..|data|] == out && data[0..|data|] == data;
      StableSortUnique(out, StableSort(data), data);
    } else {
      var rounds;
      out, rounds := FarmSort(data, tmp, nThreads - 1, false);
    }
  }

  /**
   * With two or more processes and two or more records every block is
   * shorter than the whole input, so on one thread per process the
   * `internal_work` as written runs past the end of every process's data.
   */
  lemma BlocksShorterThanTotal(total: nat, size: nat, r: nat)
    requires size >= 2 && total >= 2 && r < size
    ensures BlockLen(total, size, r) < total
  {
    var q := total / size;
    assert q * size <= total;
    assert q * 2 <= q * size;
  }

  // ---------------------------------------------------------------------
  // Merging a stream into sorted data
  // ---------------------------------------------------------------------

  lemma {:induction false} FlattenAppend(a: seq<seq<Record>>, b: seq<seq<Record>>)
    ensures Flatten(a + b) == Flatten(a) + Flatten(b)
    decreases |a|
  {
    if |a| > 0 {
      assert (a + b)[1..] == a[1..] + b;
      FlattenAppend(a[1..], b);
    } else {
      assert a + b == b;
    }
  }

  lemma FlattenOne(x: seq<Record>)
    ensures Flatten([x]) == x
  {
    assert [x][1..] == [];
  }

  /** The first `i + 1` chunks flatten to the first `i` and chunk `i`; the rest follows them. */
  lemma FlattenStep(cs: seq<seq<Record>>, i: nat)
    requires i < |cs|
    ensures Flatten(cs[..i + 1]) == Flatten(cs[..i]) + cs[i]
    ensures Flatten(cs) == Flatten(cs[..i + 1]) + Flatten(cs[i + 1..])
  {
    FlattenPrefix(cs, i);
    assert cs == cs[..i + 1] + cs[i + 1..];
    FlattenAppend(cs[..i + 1], cs[i + 1..]);
  }

  lemma FlattenPrefix(cs: seq<seq<Record>>, i: nat)
    requires i < |cs|
    ensures Flatten(cs[..i + 1]) == Flatten(cs[..i]) + cs[i]
  {
    assert cs[..i + 1] == cs[..i] + [cs[i]];
    FlattenAppend(cs[..i], [cs[i]]);
    FlattenOne(cs[i]);
  }

  lemma SortedPrefix(s: seq<Record>, t: seq<Record>)
    requires Sorted(s + t)
    ensures Sorted(s) && Sorted(t)
  {
    assert forall i :: 0 <= i < |s| ==> s[i] == (s + t)[i];
    assert forall i :: 0 <= i < |t| ==> t[i] == (s + t)[|s| + i];
  }

  /**
   * Merging in two steps equals merging once: for sorted `a` and sorted
   * `b + c`, merging `a` with `b` and then with `c` gives the merge of `a`
   * with `b + c`.
   */
  lemma MergeSeqAssoc(a: seq<Record>, b: seq<Record>, c: seq<Record>)
    requires Sorted(a) && Sorted(b + c)
    ensures MergeSeq(MergeSeq(a, b), c) == MergeSeq(a, b + c)
  {
    SortedPrefix(b, c);
    MergeSeqLaws(a, b);
    var ab := MergeSeq(a, b);
    MergeSeqLaws(ab, c);
    MergeSeqLaws(a, b + c);
    forall k | true
      ensures KeyRun(MergeSeq(ab, c), k) == KeyRun(MergeSeq(a, b + c), k)
    {
      KeyRunAppend(b, c, k);
    }
    SortedSameRunsEqual(MergeSeq(ab, c), MergeSeq(a, b + c));
  }

  /**
   * The receive loop of a merge partner (mergesort_mpi.cpp:388-420 for the
   * master, 496-529 for a worker): append each chunk and merge it into the
   * data held so far.  The worker first grows its scratch array to the new
   * length; the master's scratch array already holds the whole input.  The
   * result is a permutation of the held data and the stream, and when both
   * are sorted it is their one-shot merge.
   */
  method ReceiveMerge(cur: seq<Record>, tmp: seq<Record>, chunks: seq<seq<Record>>, plen: nat)
    returns (out: seq<Record>, tmp': seq<Record>)
    ensures multiset(out) == multiset(cur) + multiset(Flatten(chunks))
    ensures Sorted(cur) && Sorted(Flatten(chunks)) ==> out == MergeSeq(cur, Flatten(chunks))
  {
    ghost var sorted := Sorted(cur) && Sorted(Flatten(chunks));
    out, tmp' := cur, tmp;
    var i := 0;
    while i < |chunks|
      invariant 0 <= i <= |chunks|
      invariant multiset(out) == multiset(cur) + multiset(Flatten(chunks[..i]))
      invariant sorted ==> out == MergeSeq(cur, Flatten(chunks[..i]))
    {
      FlattenStep(chunks, i);
      var old_size := |out|;
      var v := out + chunks[i];
      if |tmp'| < |v| {
        tmp' := tmp' + seq(|v| - |tmp'|, _ => DefaultRecord(plen));
      }
      var v', t' := Merge(v, tmp', 0, old_size, |v|);
      assert v[0..old_size] == out && v[old_size..|v|] == chunks[i] && v[0..|v|] == v;
      assert v'[0..|v|] == v';
      if sorted {
        SortedPrefix(Flatten(chunks[..i + 1]), Flatten(chunks[i + 1..]));
        SortedPrefix(Flatten(chunks[..i]), chunks[i]);
        MergeSeqAssoc(cur, Flatten(chunks[..i]), chunks[i]);
      }
      out, tmp' := v', t';
      i := i + 1;
    }
    assert chunks[..i] == chunks;
  }

  // ---------------------------------------------------------------------
  // The merge tree over the blocks of the input
  // ---------------------------------------------------------------------

  /** Blocks `a` to `b` of `data` split `size` ways, as one slice. */
  function Sub(data: seq<Record>, size: nat, a: nat, b: nat): seq<Record>
    requires 1 <= size && a <= b <= size
  {
    BlockRange(|data|, size, a, b);
    data[BlockStart(|data|, size, a)..BlockStart(|data|, size, b)]
  }

  /** Adjacent block ranges concatenate. */
  lemma SubAppend(data: seq<Record>, size: nat, a: nat, b: nat, c: nat)
    requires 1 <= size && a <= b <= c <= size
    ensures Sub(data, size, a, b) + Sub(data, size, b, c) == Sub(data, size, a, c)
  {
    BlockRange(|data|, size, a, b);
    BlockRange(|data|, size, b, c);
  }

  /** One past the last rank whose block ends up at `q`: its subtree in the merge tree. */
  function Cover(q: nat, size: nat): (c: nat)
    ensures q > 0 ==> c == Min(q + LowBit(q), size)
    ensures q == 0 ==> c == size
  {
    if q == 0 then size else Min(q + LowBit(q), size)
  }

  /** `v` is what rank `q` sends up the tree: the stable sort of the blocks of its subtree. */
  ghost predicate Holds(data: seq<Record>, size: nat, q: nat, v: seq<Record>)
    requires 1 <= size && q < size
  {
    v == StableSort(Sub(data, size, q, Cover(q, size)))
  }

  /** Merging the stable sorts of two adjacent slices gives the stable sort of both. */
  lemma MergeStableSorts(x: seq<Record>, y: seq<Record>)
    ensures MergeSeq(StableSort(x), StableSort(y)) == StableSort(x + y)
  {
    var a, b := StableSort(x), StableSort(y);
    MergeSeqLaws(a, b);
    StableConcat(a, b, x, y, MergeSeq(a, b));
    StableSortUnique(MergeSeq(a, b), StableSort(x + y), x + y);
  }

  /** A permutation of records with `plen`-byte payloads has `plen`-byte payloads. */
  lemma PermutationPayload(a: seq<Record>, b: seq<Record>, plen: nat)
    requires multiset(a) == multiset(b) && AllHavePayload(a, plen)
    ensures AllHavePayload(b, plen)
  {
    forall i | 0 <= i < |b| ensures |b[i].payload| == plen {
      assert b[i] in multiset(a);
      var j :| 0 <= j < |a| && a[j] == b[i];
    }
  }

  lemma StableSortPayload(s: seq<Record>, plen: nat)
    requires AllHavePayload(s, plen)
    ensures AllHavePayload(StableSort(s), plen)
  {
    StableSortIsPermutation(StableSort(s), s);
    PermutationPayload(s, StableSort(s), plen);
  }

  /** How far the blocks held by rank `r` reach after its first `i` receives. */
  function Reach(r: nat, size: nat, i: nat): nat {
    Min(r + Pow2(i), size)
  }

  /**
   * One receive of rank `r`, in round `i`, from its child `r + 2^i`: the
   * child streams what it holds, and merging that stream into the stable
   * sort of blocks `r` to `r + 2^i` gives the stable sort of blocks `r` to
   * `r + 2^(i+1)`.
   */
  method ReceiveFrom(data: seq<Record>, size: nat, r: nat, i: nat, v: seq<Record>, tmp: seq<Record>,
                     sent: seq<Record>, chunk: nat, plen: nat)
    returns (v': seq<Record>, tmp': seq<Record>)
    requires 1 <= size && ChildRound(r, i) && r + Pow2(i) < size && chunk >= 1
    requires AllHavePayload(data, plen)
    requires v == StableSort(Sub(data, size, r, r + Pow2(i)))
    requires Holds(data, size, r + Pow2(i), sent)
    ensures v' == StableSort(Sub(data, size, r, Reach(r, size, i + 1)))
  {
    StreamOfHeld(data, size, r + Pow2(i), sent, chunk, plen);
    var got := RecvRecords(SendRecords(sent, chunk), plen);
    ChildMerge(data, size, r, r + Pow2(i), v, sent);
    v', tmp' := ReceiveMerge(v, tmp, got.value.0, plen);
    ChildCover(size, r, i);
  }

  /** What rank `r` holds and what its child `p` sends are sorted, and their merge covers the child's subtree too. */
  lemma ChildMerge(data: seq<Record>, size: nat, r: nat, p: nat, v: seq<Record>, sent: seq<Record>)
    requires 1 <= size && r < p < size
    requires v == StableSort(Sub(data, size, r, p))
    requires Holds(data, size, p, sent)
    ensures Sorted(v) && Sorted(sent)
    ensures MergeSeq(v, sent) == StableSort(Sub(data, size, r, Cover(p, size)))
  {
    MergeSubtrees(data, size, r, p, Cover(p, size), v, sent);
  }

  /** The subtree of the child `r + 2^i` ends where the reach of `r` after round `i` does. */
  lemma ChildCover(size: nat, r: nat, i: nat)
    requires ChildRound(r, i) && r + Pow2(i) < size
    ensures Cover(r + Pow2(i), size) == Reach(r, size, i + 1)
  {
    var p := r + Pow2(i);
    ChildLowExp(r, i);
    assert LowBit(p) == Pow2(i);
    assert Pow2(i + 1) == 2 * Pow2(i);
    assert p + LowBit(p) == r + Pow2(i + 1);
  }

  /** The stream of what a rank holds receives back as exactly that. */
  lemma StreamOfHeld(data: seq<Record>, size: nat, p: nat, sent: seq<Record>, chunk: nat, plen: nat)
    requires 1 <= size && p < size && chunk >= 1 && AllHavePayload(data, plen)
    requires Holds(data, size, p, sent)
    ensures RecvRecords(SendRecords(sent, chunk), plen).Ok?
    ensures Flatten(RecvRecords(SendRecords(sent, chunk), plen).value.0) == sent
  {
    BlockRange(|data|, size, p, Cover(p, size));
    SlicePayload(data, BlockStart(|data|, size, p), BlockStart(|data|, size, Cover(p, size)), plen);
    StableSortPayload(Sub(data, size, p, Cover(p, size)), plen);
    RecvSend(sent, chunk, plen, []);
    assert SendRecords(sent, chunk) + [] == SendRecords(sent, chunk);
  }

  /** Merging the sorted data of two adjacent subtrees gives the sorted data of their union. */
  lemma MergeSubtrees(data: seq<Record>, size: nat, a: nat, b: nat, c: nat, x: seq<Record>, y: seq<Record>)
    requires 1 <= size && a <= b <= c <= size
    requires x == StableSort(Sub(data, size, a, b)) && y == StableSort(Sub(data, size, b, c))
    ensures Sorted(x) && Sorted(y)
    ensures MergeSeq(x, y) == StableSort(Sub(data, size, a, c))
  {
    MergeStableSorts(Sub(data, size, a, b), Sub(data, size, b, c));
    SubAppend(data, size, a, b, c);
  }

  /** After all its receives, rank `r` holds the blocks of its whole subtree. */
  lemma ReachAtEnd(r: nat, size: nat)
    requires r < size
    ensures Reach(r, size, |Receives(r, size, 0)|) == Cover(r, size)
  {
    var m := |Receives(r, size, 0)|;
    ReceivesIndexed(r, size, 0);
    if r > 0 {
      if m > 0 {
        assert Receives(r, size, 0)[m - 1] == Partner(r + Pow2(0 + (m - 1)), false);
        assert ChildRound(r, m - 1);
      }
      assert m <= LowExp(r);
      Pow2Monotone(m, LowExp(r));
    }
  }

  /**
   * The first phase of rank `r`: its block of the input (rank 0 keeps the
   * first `counts[0]` records, mergesort_mpi.cpp:359-366; any other rank
   * receives its block from the master, 441-478) and a scratch array (the
   * master's holds SIZE records, a worker's as many as its block).
   */
  method FirstPhase(data: seq<Record>, size: nat, r: nat, chunk: nat, plen: nat)
    returns (block: seq<Record>, tmp: seq<Record>)
    requires 1 <= size && r < size && chunk >= 1 && AllHavePayload(data, plen)
    ensures block == Sub(data, size, r, r + 1) && |tmp| >= |block|
  {
    if r == 0 {
      BlockRange(|data|, size, 0, 1);
      block := data[0..BlockStart(|data|, size, 1)];
      tmp := seq(|data|, _ => DefaultRecord(plen));
    } else {
      ScatterDelivers(data, size, chunk, plen, r);
      var got := RecvRecords(Scatter(data, size, chunk)[r - 1], plen);
      block := Flatten(got.value.0);
      tmp := seq(|block|, _ => DefaultRecord(plen));
    }
  }

  /** A receive in the schedule of `r` at position `i` is from the child of round `i`. */
  lemma PartnerIsChild(r: nat, size: nat, i: nat)
    requires r < size && i < |MergePartners(r, size)| && !MergePartners(r, size)[i].sends
    ensures i < |Receives(r, size, 0)| && ChildRound(r, i) && r + Pow2(i) < size
    ensures MergePartners(r, size)[i].rank == r + Pow2(i)
    ensures Reach(r, size, i) == r + Pow2(i)
  {
    PartnersShape(r, size);
    ReceivesIndexed(r, size, 0);
    var rs := Receives(r, size, 0);
    assert MergePartners(r, size)[i] == rs[i];
    assert 0 + i == i;
  }

  /** A send in the schedule of `r` comes after all its receives. */
  lemma SendIsLast(r: nat, size: nat, i: nat)
    requires r < size && i < |MergePartners(r, size)| && MergePartners(r, size)[i].sends
    ensures i >= |Receives(r, size, 0)|
  {
    PartnersShape(r, size);
    ReceivesIndexed(r, size, 0);
  }

  /**
   * Entry `i` of the schedule of `r`: a receive merges the child's stream
   * and reaches one round further; a send, which comes after every
   * receive, leaves the data alone.
   */
  method MergeStep(data: seq<Record>, size: nat, r: nat, sent: seq<seq<Record>>, i: nat, v: seq<Record>,
                   tmp: seq<Record>, mergeChunk: nat, plen: nat)
    returns (v': seq<Record>, tmp': seq<Record>)
    requires 1 <= size && r < size && |sent| == size && mergeChunk >= 1 && AllHavePayload(data, plen)
    requires forall q :: r < q < size ==> Holds(data, size, q, sent[q])
    requires i < |MergePartners(r, size)|
    requires v == StableSort(Sub(data, size, r, Reach(r, size, Min(i, |Receives(r, size, 0)|))))
    ensures v' == StableSort(Sub(data, size, r, Reach(r, size, Min(i + 1, |Receives(r, size, 0)|))))
  {
    var p := MergePartners(r, size)[i];
    if !p.sends {
      PartnerIsChild(r, size, i);
      v', tmp' := ReceiveFrom(data, size, r, i, v, tmp, sent[p.rank], mergeChunk, plen);
    } else {
      SendIsLast(r, size, i);
      v', tmp' := v, tmp;
    }
  }

  /** After the whole schedule, rank `r` has reached the end of its subtree. */
  lemma ScheduleDone(r: nat, size: nat)
    requires r < size
    ensures Reach(r, size, Min(|MergePartners(r, size)|, |Receives(r, size, 0)|)) == Cover(r, size)
  {
    PartnersShape(r, size);
    ReachAtEnd(r, size);
  }

  /**
   * The merge phase of rank `r` (mergesort_mpi.cpp:375-422 for the master,
   * 489-558 for a worker): walk the merge partners, merging the stream of
   * every child into the data; the final send to the parent carries the
   * result.  Given what every higher rank sends, rank `r` ends with the
   * stable sort of the blocks of its subtree.
   */
  method MergePhase(data: seq<Record>, size: nat, r: nat, sent: seq<seq<Record>>, v0: seq<Record>,
                    tmp0: seq<Record>, mergeChunk: nat, plen: nat)
    returns (v: seq<Record>)
    requires 1 <= size && r < size && |sent| == size && mergeChunk >= 1 && AllHavePayload(data, plen)
    requires forall q :: r < q < size ==> Holds(data, size, q, sent[q])
    requires v0 == StableSort(Sub(data, size, r, r + 1))
    ensures Holds(data, size, r, v)
  {
    var partners := MergePartners(r, size);
    ghost var m := |Receives(r, size, 0)|;
    v := v0;
    var tmp := tmp0;
    var i := 0;
    while i < |partners|
      invariant 0 <= i <= |partners|
      invariant v == StableSort(Sub(data, size, r, Reach(r, size, Min(i, m))))
    {
      v, tmp := MergeStep(data, size, r, sent, i, v, tmp, mergeChunk, plen);
      i := i + 1;
    }
    ScheduleDone(r, size);
  }

  /** One process from start to finish: its first phase, its sort, its merge phase. */
  method ProcessRank(data: seq<Record>, size: nat, r: nat, sent: seq<seq<Record>>,
                     nThreads: nat, scatterChunk: nat, mergeChunk: nat, plen: nat)
    returns (v: seq<Record>)
    requires 1 <= size && r < size && |sent| == size && nThreads >= 1
    requires scatterChunk >= 1 && mergeChunk >= 1 && AllHavePayload(data, plen)
    requires forall q :: r < q < size ==> Holds(data, size, q, sent[q])
    ensures Holds(data, size, r, v)
  {
    var block, tmp := FirstPhase(data, size, r, scatterChunk, plen);
    var sorted := InternalWork(block, tmp, nThreads);
    v := MergePhase(data, size, r, sent, sorted, tmp, mergeChunk, plen);
  }

  /**
   * The MPI engine on `size` processes: rank 0 ends with the stable sort of
   * the input, the same array the single-node engine produces.
   */
  method DistributedSort(data: seq<Record>, size: nat, nThreads: nat, scatterChunk: nat, mergeChunk: nat, plen: nat)
    returns (out: seq<Record>)
    requires size >= 1 && nThreads >= 1 && scatterChunk >= 1 && mergeChunk >= 1 && AllHavePayload(data, plen)
    ensures out == StableSort(data)
  {
    var sent: seq<seq<Record>> := seq(size, _ => []);
    var r := size;
    while r > 0
      invariant 0 <= r <= size && |sent| == size
      invariant forall q :: r <= q < size ==> Holds(data, size, q, sent[q])
    {
      r := r - 1;
      var v := ProcessRank(data, size, r, sent, nThreads, scatterChunk, mergeChunk, plen);
      sent := sent[r := v];
    }
    out := sent[0];
    BlockEnd(|data|, size);
    assert Sub(data, size, 0, size) == data;
  }

  /**
   * `main` (mergesort_mpi.cpp:566-640 with the MPI path corrected as above):
   * one process runs the single-node engine on the whole input, more run
   * the distributed engine; both give the stable sort of the input.
   */
  method MpiMain(data: seq<Record>, size: nat, nThreads: nat, scatterChunk: nat, mergeChunk: nat, plen: nat)
    returns (out: seq<Record>)
    requires size >= 1 && nThreads >= 1 && scatterChunk >= 1 && mergeChunk >= 1 && AllHavePayload(data, plen)
    ensures out == StableSort(data)
  {
    if size == 1 {
      var tmp := seq(|data|, _ => DefaultRecord(plen));
      out := InternalWork(data, tmp, nThreads);
    } else {
      out := DistributedSort(data, size, nThreads, scatterChunk, mergeChunk, plen);
    }
  }
}
