# A verified model of the SPM assignments' sorting, compression and Collatz cores

This project is a Dafny model of the logic of three parallel-programming assignments, with proofs of the properties their code relies on.

**The merge-sort engine** (Assignment4/MergeSort_Code) is modelled in four layers:

- **Records.** A `Record` is a key plus a heap-allocated payload of `RPAYLOAD` bytes. Its constructors and assignment operators are modelled on an explicit heap of objects and buffers.
- **Sequential kernel.** This is the two-way `merge` and the recursive `mergesort_seq`, whose base case is a stable sort.
- **FastFlow farm.** The farm's coordinator is modelled as a sequential state machine over index ranges:
  - the initial (W+1)-way split;
  - the pairing rounds of `send_task`;
  - the `n_sent` countdown that ends in EOS.

  Each worker step is one atomic sort or merge of its range.
- **MPI engine.** This layer covers:
  - the block split (`counts`/`displs`);
  - the chunked wire protocol, as an in-order sequence of messages;
  - the merge tree of `get_merge_partners`;
  - merge-on-arrival at the receiver.

  Processes are simulated one at a time, highest rank first.

Every layer is proved to produce the same array, the stable sort of the input. For the MPI engine this holds with the two corrections listed under "## Findings": the merge-phase sender and the one-thread `internal_work`. A stable sort is unique (`Order.StableSortUnique`), so the result is the same whatever the thread count, process count or chunk sizes.

**The compressor** (Assignment3/Miniz_Code) is modelled in two parts:

- **Name handling.**
  - which directory entries the walk enters;
  - which files a run keeps;
  - the name of a decompressed file;
  - `getOption`.
- **Container format.** This is the chunked container written by `compressParallelFile` and read by `decompressParallelFile`. It includes the older magic-tagged format and the chunk-offset arithmetic. miniz's `compress` and `uncompress` are function parameters, assumed to be inverse to each other.

**The Collatz drivers** (Assignment2/Collatz_Code) are modelled in three parts:

- **The step recurrence.** The step count is a ghost relation, because whether every start reaches 1 is the open Collatz conjecture.
- **The command-line checks** of both drivers.
- **The two work partitions.** These are the dynamic task manager and the block-cyclic schedule, modelled sequentially over thread ids.

Integers are unbounded. The source's 64-bit wrap-around is written out where it decides behaviour: `3n+1`, the task counter, `len - 4` on a short name, and `stoull` of a negative number.

## Model

| member | source | states |
|---|---|---|
| Records.DefaultConstruct | Assignment4/MergeSort_Code/config.hpp:22-25 | A default-constructed record has key 0 and a newly allocated buffer of `plen` zero bytes. Every other live record keeps its value, and no two records share a buffer. |
| Records.CopyConstruct | Assignment4/MergeSort_Code/config.hpp:28-31 | The copy has the source's key and payload bytes in a buffer that did not exist before, so the two never alias. Copying a moved-from record, whose payload is null, is a fault. |
| Records.CopyAssign | Assignment4/MergeSort_Code/config.hpp:34-46 | Self-assignment changes nothing. Otherwise the target ends with the source's key and bytes. It keeps its own buffer when it had one and gets a fresh one when its payload was null. Only the target changes. |
| Records.MoveConstruct | Assignment4/MergeSort_Code/config.hpp:49-52 | The new record takes over the source's key and buffer. The source is left with a null payload, and no buffer is allocated or freed. |
| Records.MoveAssign | Assignment4/MergeSort_Code/config.hpp:55-63 | Self-move changes nothing. Otherwise the target's old buffer is freed, the target takes over the source's key and buffer, and the source is left null. |
| Records.Destroy | Assignment4/MergeSort_Code/config.hpp:66-68 | The destructor frees the record's buffer and leaves every other record's value unchanged. |
| Records.CopyThenMoveDeliversValue | Assignment4/MergeSort_Code/config.hpp:28-52 | Corollary of `Records.CopyConstruct` and `Records.MoveConstruct`. Copying a record into a temporary and then moving the temporary into a new object delivers the original value. The original is intact and the temporary is left empty. |
| Order.StableSortUnique | Assignment4/MergeSort_Code/mergesort_seq.cpp:39-56 | Two outputs that are both sorted by key, and both keep each key's records in input order, are equal. Every configuration of the engine therefore yields the same array. |
| Order.StableSortIsPermutation | Assignment4/MergeSort_Code/mergesort_seq.cpp:39-56 | A stable sort of the input is a permutation of it. |
| Order.StableConcat | Assignment4/MergeSort_Code/mergesort_seq.cpp:50-55 | Take two parts, each a stable sort of its own input, and a sorted array whose records of each key are the first part's followed by the second's. That array is a stable sort of the two inputs concatenated. |
| Kernel.MergeSeqPermutes | Assignment4/MergeSort_Code/mergesort_seq.cpp:18-35 | The merge of two runs holds exactly the records of both runs, as a multiset, and its length is the sum of theirs. |
| Kernel.MergeSeqSorted | Assignment4/MergeSort_Code/mergesort_seq.cpp:14-36 | Merging two runs that are sorted by key yields a run sorted by key. |
| Kernel.MergeSeqStable | Assignment4/MergeSort_Code/mergesort_seq.cpp:19 | For every key, the merged run lists the left run's records of that key before the right run's, each in their original order. This is the `<=` that favours the left run. |
| Kernel.StableSort | Assignment4/MergeSort_Code/mergesort_seq.cpp:42-47 | The base case sorts by key only. Its result is sorted, and each key's records keep their input order. |
| Kernel.Merge | Assignment4/MergeSort_Code/mergesort_seq.cpp:14-36 | `merge` changes `v` and `dst` only inside `[left, right)`, and leaves the same records there in both. With sorted halves, the range ends sorted, with each key's left-half records before its right-half records. The range keeps its multiset in every case. |
| Kernel.MergeSortSeq | Assignment4/MergeSort_Code/mergesort_seq.cpp:39-56 | `mergesort_seq` changes `v` and `tmp` only inside `[left, right)`. It leaves `v[left, right)` a stable sort and a permutation of its former contents. |
| Helpers.IsNumber | Assignment4/MergeSort_Code/general_helpers.hpp:13-26 | It succeeds only when `stol` consumes the whole string, so the string ends in a digit. The value fits a `long`. What the value is, is stated by `Helpers.IsNumberMeaning`. |
| Helpers.IsNumberMeaning | Assignment4/MergeSort_Code/general_helpers.hpp:13-26 | For every string and value: `isNumber` accepts the string with that value exactly when the string is white space, at most one sign, then only digits (at least one), and the signed value of the digits is that value and fits a `long`. |
| Helpers.IsNumberDigits | Assignment4/MergeSort_Code/general_helpers.hpp:13-26 | A plain run of digits is read as the number the digits denote. This is the meaning `CollatzArgs.FlagValue` gives a flag value. |
| Helpers.IsNumberPadded | Assignment4/MergeSort_Code/general_helpers.hpp:18-20 | `" +007"` is accepted as 7: leading white space and a plus sign are read past. |
| Helpers.IsNumberShow | Assignment4/MergeSort_Code/general_helpers.hpp:13-26 | Every `long` written in decimal is accepted and read back exactly. |
| Helpers.IsNumberTrailing | Assignment4/MergeSort_Code/general_helpers.hpp:18-20 | A trailing non-digit makes `isNumber` fail, because the conversion must consume the whole string. |
| Helpers.ParseLen | Assignment4/MergeSort_Code/general_helpers.hpp:28-60 | A length parses only if it ends in a digit or in one of the recognised suffix letters. |
| Helpers.ParseLenShow | Assignment4/MergeSort_Code/general_helpers.hpp:53-59 | Without a suffix, `parseLen` reads back any `long` written in decimal, as `isNumber` does. |
| Helpers.ParseLenSuffixed | Assignment4/MergeSort_Code/general_helpers.hpp:30-51 | A number followed by a suffix parses to the number times that suffix's multiplier. K/k gives 1000, M/m gives 10^6, and G/g/B/b gives 10^9. |
| Helpers.ParseLenLoneSuffix | Assignment4/MergeSort_Code/general_helpers.hpp:31-59 | A suffix letter on its own is not a length. A one-character input goes to `isNumber`, which rejects it. |
| Helpers.IsSortedKeys | Assignment4/MergeSort_Code/general_helpers.hpp:72-78 | The result is true exactly when the keys never decrease. The check is pairwise and vacuously true for fewer than two records. |
| Numerals.StolShow | Assignment4/MergeSort_Code/general_helpers.hpp:18-20 | `stol` reads back every `long` from its decimal spelling and reports the whole spelling consumed. |
| Numerals.StoullShow | Assignment2/Collatz_Code/sequential_collatz.cpp:43-44 | `stoull` reads back every unsigned 64-bit value from its decimal spelling. |
| Numerals.StoullShowNegative | Assignment2/Collatz_Code/sequential_collatz.cpp:43-44 | `stoull` reads `-m` as 2^64 - m, so a bound written with a minus sign is accepted as a huge positive number. |
| Blocks.BlockStartClosed | Assignment4/MergeSort_Code/mergesort_mpi.cpp:312-323 | Each offset (`displs`) is the sum of the block lengths before it. Its closed form is i*(total/parts) + min(i, total%parts). |
| Blocks.BlockEnd | Assignment4/MergeSort_Code/mergesort_mpi.cpp:312-323 | The block lengths (`counts`) add up to the whole input. |
| Blocks.BlockBalanced | Assignment4/MergeSort_Code/mergesort_mpi.cpp:312-323 | Block lengths never increase along the split, and any two differ by at most one. The first total%parts blocks carry the extra record. |
| Blocks.BlockRange | Assignment4/MergeSort_Code/mergesort_mpi.cpp:312-323 | Block boundaries are ordered and lie within `[0, total]`. |
| Farm.SplitTiles | Assignment4/MergeSort_Code/mergesort_par.cpp:140-160 | The ranges of a split tile `[0, n)` with no gap or overlap, and range i has the length of block i. |
| Farm.SplitLoop | Assignment4/MergeSort_Code/mergesort_par.cpp:141-160 | The loop's i-th range starts where the previous one ended. It is `chunk_size + 1` long for the first `remainder` ranges and `chunk_size` long after that. Worker i receives it as a sort task. |
| Farm.MasterStart | Assignment4/MergeSort_Code/mergesort_par.cpp:135-166 | The first step makes `n_workers + 1` contiguous ranges that cover `[0, n)` exactly. It hands the first `n_workers` to the workers as sort tasks and keeps the last. It sets `n_sent` to `n_workers`, and `from_left` is true. |
| Farm.PairFromLeft | Assignment4/MergeSort_Code/mergesort_par.cpp:80-100 | Pairing from the front merges ranges 2m and 2m+1 into task m and new range m. An odd last range is carried over unchanged. k ranges become ceil(k/2) ranges and floor(k/2) tasks. |
| Farm.PairFromRight | Assignment4/MergeSort_Code/mergesort_par.cpp:101-122 | Pairing from the back merges the last two ranges first, and an odd first range is carried over unchanged. |
| Farm.PairTasks | Assignment4/MergeSort_Code/mergesort_par.cpp:85-94 | Each merge task names two adjacent ranges: `left` is the first's start, `mid` is where the first ends and the second starts, and `right` is the second's end. |
| Farm.PairTiles | Assignment4/MergeSort_Code/mergesort_par.cpp:76-131 | A round turns k contiguous ranges over a span into ceil(k/2) contiguous ranges over the same span, and sends floor(k/2) tasks. |
| Farm.PairDisjoint | Assignment4/MergeSort_Code/mergesort_par.cpp:80-122 | The tasks sent in one round name pairwise disjoint index ranges. |
| Farm.LeftoverUntouched | Assignment4/MergeSort_Code/mergesort_par.cpp:76-131 | No task of a round overlaps the odd range the round carries over. |
| Farm.WorkerSvc | Assignment4/MergeSort_Code/mergesort_par.cpp:203-229 | A worker sorts the named range (first phase) or merges its two halves (later phases). It changes nothing outside the range and returns the task marked sorted. |
| Farm.RunTasks | Assignment4/MergeSort_Code/mergesort_par.cpp:203-229 | Running a round's pairwise disjoint tasks leaves each task's result in its range and every other position unchanged. |
| Farm.ExecutedUnique | Assignment4/MergeSort_Code/mergesort_par.cpp:203-229 | That outcome determines the array, so the order in which workers finish does not matter. |
| Farm.FirstPhaseSorted | Assignment4/MergeSort_Code/mergesort_par.cpp:160-166 | After the first phase, every range of the split holds the stable sort of its original contents. |
| Farm.RoundKeepsRangesSorted | Assignment4/MergeSort_Code/mergesort_par.cpp:170-181 | Suppose every range is a stable sort of its original contents when a round starts. Then the same holds for the new ranges once the round's tasks have run. |
| Farm.LastRangeIsAll | Assignment4/MergeSort_Code/mergesort_par.cpp:170-175 | When a single range is left, the data is the stable sort of the original input. |
| Farm.SendTask | Assignment4/MergeSort_Code/mergesort_par.cpp:76-131 | As written, a round of `send_task` sets `n_sent` to the number of tasks sent and leaves the member `from_left` unchanged. The flip at line 128 assigns the parameter, which shadows the member. |
| Farm.AsWrittenNeverFlips | Assignment4/MergeSort_Code/mergesort_par.cpp:128-195 | However many rounds run, the member `from_left` keeps its initial value. |
| Farm.AsWrittenLeftoverAlwaysLast | Assignment4/MergeSort_Code/mergesort_par.cpp:76-131 | Since every round pairs from the front, an odd leftover is always the last range, round after round. |
| Farm.SendTaskAlternating | Assignment4/MergeSort_Code/mergesort_par.cpp:76-131 | In the variant whose flip reaches the member, `from_left` alternates between rounds. Range and task counts are as in the as-written round. |
| Farm.AlternatingLeftoverMoves | Assignment4/MergeSort_Code/mergesort_par.cpp:80-128 | With alternation, a round that carried the last range over is followed by one that pairs from the back. That round carries the first range over instead. |
| Farm.FiveBlocksExample | Assignment4/MergeSort_Code/mergesort_par.cpp:76-131 | With five ranges, two rounds as written give [0,4) and [4,5), so the last block waits two rounds. Alternating gives [0,2) and [2,5). |
| Farm.MasterSvc | Assignment4/MergeSort_Code/mergesort_par.cpp:170-185 | Each returned task decrements `n_sent`. When the count reaches zero, the coordinator broadcasts EOS if a single range remains. Otherwise it sends the next round, with `n_sent` set to floor(k/2). |
| Farm.RoundsIsCeilLog2 | Assignment4/MergeSort_Code/mergesort_par.cpp:170-175 | Reducing k ranges to one takes ceil(log2 k) merge rounds: 2^(R-1) < k <= 2^R. |
| Farm.FarmSort | Assignment4/MergeSort_Code/mergesort_par.cpp:135-229 | A farm run ends with the stable sort of the input after ceil(log2(n_workers+1)) merge rounds, whether or not `from_left` alternates. |
| Farm.ParallelMain | Assignment4/MergeSort_Code/mergesort_par.cpp:256-302 | With one thread the program calls `mergesort_seq` directly, and otherwise it runs the farm. Either way the output is the stable sort of the input. |
| Partners.PartnersShape | Assignment4/MergeSort_Code/mergesort_mpi.cpp:286-306 | A rank's schedule is its receives in ascending step order. A rank other than 0 then has exactly one send, to its parent. |
| Partners.ReceivesMembers | Assignment4/MergeSort_Code/mergesort_mpi.cpp:289-302 | Rank r receives from p exactly when p = r + 2^i < size for a step i below the lowest set bit of r. Rank 0 takes every step. |
| Partners.ReceivesIndexed | Assignment4/MergeSort_Code/mergesort_mpi.cpp:289-302 | The i-th receive of rank r is from r + 2^i. The list stops at the first step that is past r's lowest set bit or past `size`. |
| Partners.SingleProcess | Assignment4/MergeSort_Code/mergesort_mpi.cpp:286-306 | Corollary of the definition of the partner list. With one process the partner list is empty. |
| Partners.RootSchedule | Assignment4/MergeSort_Code/mergesort_mpi.cpp:286-306 | Rank 0 only receives, from 1, 2, 4, … below `size`, in ascending order. |
| Partners.PartnersSymmetric | Assignment4/MergeSort_Code/mergesort_mpi.cpp:292-302 | Rank r receives from p exactly when p sends to r. |
| Partners.ParentBelow | Assignment4/MergeSort_Code/mergesort_mpi.cpp:292-302 | Corollary of the definition of the parent (the lowest set bit cleared). A rank's parent has a smaller rank, so the merge tree has no cycle. |
| Transport.UnpackPack | Assignment4/MergeSort_Code/mergesort_mpi.cpp:441-478 | The receiver's unpacking of a chunk's keys and packed payload bytes restores every record exactly, key and payload. |
| Transport.RecvSend | Assignment4/MergeSort_Code/mergesort_mpi.cpp:326-357 | Receiving the stream a sender writes yields exactly its chunks and consumes nothing after them. The chunks concatenate back to the sent records. |
| Transport.ChunksFlatten | Assignment4/MergeSort_Code/mergesort_mpi.cpp:335-356 | The chunks of a stream, concatenated, are the data from the starting index on. |
| Transport.ChunkCount | Assignment4/MergeSort_Code/mergesort_mpi.cpp:335-336 | A stream of `total` records has ceil(total / CHUNK_SIZE) chunks, so none when `total` is 0. |
| Transport.ChunkSizes | Assignment4/MergeSort_Code/mergesort_mpi.cpp:335-336 | Every chunk holds between 1 and CHUNK_SIZE records, and every chunk but the last holds exactly CHUNK_SIZE. |
| Transport.ScatterDelivers | Assignment4/MergeSort_Code/mergesort_mpi.cpp:312-357 | Worker r receives exactly `data[displs[r], displs[r] + counts[r])`, keys and payloads. |
| Transport.AsWrittenSingleChunk | Assignment4/MergeSort_Code/mergesort_mpi.cpp:537-557 | When the data fits in one chunk, the merge-phase sender as written sends the correct stream. |
| Transport.AsWrittenRepeatsPrefix | Assignment4/MergeSort_Code/mergesort_mpi.cpp:537-557 | The receiver accepts the as-written stream, but every chunk in it is a prefix of `local_data`. |
| Transport.AsWrittenLosesRecords | Assignment4/MergeSort_Code/mergesort_mpi.cpp:545-546 | Two records sent with a chunk size of 1 arrive as the first record twice. |
| Distributed.InternalWorkAsWritten | Assignment4/MergeSort_Code/mergesort_mpi.cpp:255-282 | With several threads it sorts the buffer. With one thread it is defined only when SIZE does not exceed the buffer's length, and then it sorts only the first SIZE records. |
| Distributed.InternalWork | Assignment4/MergeSort_Code/mergesort_mpi.cpp:255-282 | The corrected `internal_work` leaves the stable sort of the whole buffer, for any thread count. |
| Distributed.BlocksShorterThanTotal | Assignment4/MergeSort_Code/mergesort_mpi.cpp:255-261 | With at least two processes and two records, every rank's block is shorter than SIZE. The as-written single-thread path therefore indexes past the block. |
| Distributed.MergeSeqAssoc | Assignment4/MergeSort_Code/mergesort_mpi.cpp:408-419 | Merging a sorted stream chunk by chunk gives the same result as merging it whole. |
| Distributed.ReceiveMerge | Assignment4/MergeSort_Code/mergesort_mpi.cpp:496-529 | Appending each chunk and merging at `mid = old size` grows the buffer's multiset by exactly the received records. For sorted inputs the result is the merge of the buffer with the whole stream. |
| Distributed.ReceiveFrom | Assignment4/MergeSort_Code/mergesort_mpi.cpp:496-529 | After receiving from child r + 2^i, rank r holds the stable sort of every block from r up to where that child's subtree ends. |
| Distributed.FirstPhase | Assignment4/MergeSort_Code/mergesort_mpi.cpp:441-478 | A rank's first phase leaves it holding its own block of the split. |
| Distributed.MergeStep | Assignment4/MergeSort_Code/mergesort_mpi.cpp:489-557 | One entry of the partner list extends the rank's sorted holding by one child's subtree, or sends it up unchanged. |
| Distributed.MergePhase | Assignment4/MergeSort_Code/mergesort_mpi.cpp:489-557 | When its partner list is done, a rank holds the stable sort of the blocks of its subtree. |
| Distributed.ProcessRank | Assignment4/MergeSort_Code/mergesort_mpi.cpp:435-560 | With the two corrections listed under "## Findings", every process, given what its children send, holds the stable sort of its subtree's blocks at the end. |
| Distributed.DistributedSort | Assignment4/MergeSort_Code/mergesort_mpi.cpp:310-431 | With the two corrections listed under "## Findings", rank 0 ends with the stable sort of the whole input, for any process count, thread count and chunk sizes. |
| Distributed.MpiMain | Assignment4/MergeSort_Code/mergesort_mpi.cpp:565-640 | With one process the program runs `internal_work` directly, and otherwise the distributed engine. With the two corrections listed under "## Findings", the output is the stable sort of the input. |
| CollatzSteps.StepsOfOne | Assignment2/Collatz_Code/sequential_collatz.cpp:10-18 | `collatz(1)` takes 0 steps. |
| CollatzSteps.StepsRecurrence | Assignment2/Collatz_Code/sequential_collatz.cpp:10-18 | For n other than 1, n takes s steps exactly when s >= 1 and the next value takes s - 1 steps. The next value is n/2 for even n and 3n+1 modulo 2^64 for odd n. |
| CollatzSteps.StepsUnique | Assignment2/Collatz_Code/sequential_collatz.cpp:10-18 | Corollary of the definition of the step count as the first arrival. A start that reaches 1 has a single step count, the first arrival. |
| CollatzSteps.ZeroNeverReachesOne | Assignment2/Collatz_Code/sequential_collatz.cpp:47-50 | From 0 the loop never reaches 1. This is why the sequential driver refuses a zero bound. |
| CollatzSteps.Steps | Assignment2/Collatz_Code/sequential_collatz.cpp:10-18 | For a start that reaches 1, `collatz` returns the number of steps to its first arrival at 1. |
| CollatzSteps.RangeMax | Assignment2/Collatz_Code/sequential_collatz.cpp:75-78 | The inner loop leaves the largest step count over `[start, end]`. |
| CollatzSteps.SequentialMaxima | Assignment2/Collatz_Code/sequential_collatz.cpp:64-80 | `maximum[j]` is the largest step count over range j, with one entry per range. |
| CollatzMax.MaxUnion | Assignment2/Collatz_Code/parallel_collatz.cpp:100-104 | The maximum over a union of two sets is the larger of the two maxima. |
| CollatzMax.FoldOrderFree | Assignment2/Collatz_Code/parallel_collatz.cpp:77-81 | Folding local maxima into the shared entry with `max` gives the same value in any thread order. |
| CollatzMax.ThreadsMax | Assignment2/Collatz_Code/parallel_collatz.cpp:77-81 | Folding each thread's local maximum gives the maximum over the union of what the threads visited. |
| BlockCyclic.OuterMember | Assignment2/Collatz_Code/parallel_collatz.cpp:95-99 | The loops of one thread visit exactly the x in `[i, end]` whose offset from i modulo `shift` is below `chunk_size`. |
| BlockCyclic.OuterLoopEnds | Assignment2/Collatz_Code/parallel_collatz.cpp:88-98 | Over a nonempty range, a thread's outer loop `i += shift` leaves the range after some number of rounds exactly when `chunk_size` is positive. With `chunk_size` 0 the index never moves and the inner loop computes nothing. |
| BlockCyclic.VisitsMember | Assignment2/Collatz_Code/parallel_collatz.cpp:86-99 | Thread t visits x exactly when x is in the range and x lies in chunk number ((x - start) / chunk_size) modulo `num_threads` = t. |
| BlockCyclic.VisitedOnce | Assignment2/Collatz_Code/parallel_collatz.cpp:86-99 | Every index of the range is visited by exactly one thread, once, in increasing order. |
| BlockCyclic.CoverAll | Assignment2/Collatz_Code/parallel_collatz.cpp:86-99 | The threads together visit exactly `[start, end]`. |
| BlockCyclic.BlockCyclicMax | Assignment2/Collatz_Code/parallel_collatz.cpp:86-104 | Folding the threads' local maxima, in any order, yields the maximum step count over the whole range. |
| DynamicTasks.GetNextTask | Assignment2/Collatz_Code/parallel_collatz.cpp:32-38 | The counter advances by `chunk_size` modulo 2^64 on every call. A call fails exactly when the old counter is past `end`. Otherwise the task starts at the old counter and ends at `end` or after a full chunk, whichever comes first. |
| DynamicTasks.CallsClosed | Assignment2/Collatz_Code/parallel_collatz.cpp:27-38 | While the counter has not wrapped, call j on a fresh manager returns the j-th chunk of `[start, end]`, or failure once past the end. |
| DynamicTasks.DynamicTiles | Assignment2/Collatz_Code/parallel_collatz.cpp:27-37 | Successive tasks tile `[start, end]`: the first starts at `start`, each is at most one chunk long, and each starts right after the previous one. After the task ending at `end`, every call fails. |
| DynamicTasks.TaskOf | Assignment2/Collatz_Code/parallel_collatz.cpp:32-37 | Index x of the range is covered by exactly one call, number (x - start) / chunk_size. |
| DynamicTasks.ZeroChunkStalls | Assignment2/Collatz_Code/parallel_collatz.cpp:32-37 | With `chunk_size` 0 the counter never moves, so every call hands out the same task. |
| DynamicTasks.DynamicCoverAll | Assignment2/Collatz_Code/parallel_collatz.cpp:63-76 | However the calls are shared among threads, the threads together visit exactly `[start, end]`. |
| DynamicTasks.DynamicMax | Assignment2/Collatz_Code/parallel_collatz.cpp:63-81 | Folding the local maxima of the dynamic policy yields the maximum step count over the range, in any thread order. |
| CollatzArgs.ParseRange | Assignment2/Collatz_Code/sequential_collatz.cpp:33-57 | An accepted range has start <= end <= ULLONG_MAX, and in the sequential checks no zero bound. An argument is refused for lacking a dash exactly when it contains no `-`. |
| CollatzArgs.ParseShowRange | Assignment2/Collatz_Code/sequential_collatz.cpp:33-57 | Every valid range written as `start-end` parses back to itself. |
| CollatzArgs.ParseStartAfterEnd | Assignment2/Collatz_Code/sequential_collatz.cpp:51-54 | A range with start > end is refused. |
| CollatzArgs.ParseZeroBound | Assignment2/Collatz_Code/sequential_collatz.cpp:47-50 | A zero bound is refused by the sequential checks and accepted by the parallel ones. |
| CollatzArgs.ParseNegativeEnd | Assignment2/Collatz_Code/sequential_collatz.cpp:43-44 | An end written as `-m` is accepted as 2^64 - m. |
| CollatzArgs.ParseRangesEach | Assignment2/Collatz_Code/sequential_collatz.cpp:33-57 | A list of ranges is accepted exactly when every argument is accepted, and then it holds each argument's range in order. |
| CollatzArgs.ParseSequentialArgs | Assignment2/Collatz_Code/sequential_collatz.cpp:26-57 | The usage error occurs exactly when there are no arguments. An accepted command line yields one valid range per argument. |
| CollatzArgs.SequentialRoundTrip | Assignment2/Collatz_Code/sequential_collatz.cpp:26-57 | Any nonempty list of valid ranges, written out, parses back to itself. |
| CollatzArgs.StoiShow | Assignment2/Collatz_Code/parallel_collatz.cpp:163-164 | A flag value written in decimal passes `is_number` and reads back through `stoi`. |
| CollatzArgs.FlagValue | Assignment2/Collatz_Code/parallel_collatz.cpp:160-177 | An accepted flag value is the number its digits denote and fits an `int`. |
| CollatzArgs.ParseDynamicFlag | Assignment2/Collatz_Code/parallel_collatz.cpp:158-159 | `-d` sets dynamic mode and parsing continues with the next argument. |
| CollatzArgs.ParseArgs | Assignment2/Collatz_Code/parallel_collatz.cpp:140-197 | The usage error occurs exactly when there are no arguments. Every accepted configuration has `int`-sized thread and chunk counts and valid ranges. |
| CollatzArgs.ParallelRoundTrip | Assignment2/Collatz_Code/parallel_collatz.cpp:140-197 | Any well-formed configuration, written as `[-d] -n t -c k` followed by its ranges, parses back to itself. |
| CollatzArgs.MissingFlagValue | Assignment2/Collatz_Code/parallel_collatz.cpp:160-177 | `-n` or `-c` that is last, or followed by a non-number, is refused. |
| CollatzArgs.RangeWithoutDash | Assignment2/Collatz_Code/parallel_collatz.cpp:178-185 | An argument that is neither a flag nor contains `-` is refused. |
| CollatzArgs.ParseZeroFlag | Assignment2/Collatz_Code/parallel_collatz.cpp:160-177 | With the corrected checks, `-n 0` or `-c 0` is refused with a zero-value error. |
| CollatzArgs.ZeroRangeAccepted | Assignment2/Collatz_Code/parallel_collatz.cpp:186-195 | The parallel driver as written accepts `0-b`, whose start never reaches 1. The corrected checks refuse it. |
| CollatzArgs.ZeroChunkAccepted | Assignment2/Collatz_Code/parallel_collatz.cpp:169-177 | As written, `-c 0` is accepted. |
| CollatzArgs.ZeroChunkSpins | Assignment2/Collatz_Code/parallel_collatz.cpp:169-177 | As written, `-c 0` without `-d` keeps the block-cyclic policy, and every thread's outer-loop index stays within the range forever. The corrected checks refuse `-c 0`. |
| CollatzArgs.ZeroChunkStalls | Assignment2/Collatz_Code/parallel_collatz.cpp:169-177 | As written, `-d -c 0` selects the dynamic policy with chunk size 0, and the task manager hands out the same task forever. The corrected checks refuse `-c 0`. |
| CollatzMax.Spawned | Assignment2/Collatz_Code/parallel_collatz.cpp:109-133 | `run` starts threads 0 to `num_threads - 1`, in order, and none when `num_threads` is 0 or less. |
| BlockCyclic.BlockCyclicRunMax | Assignment2/Collatz_Code/parallel_collatz.cpp:109-133 | After `run` with the block-cyclic policy and at least one thread started, a range's entry is the maximum step count over the range. |
| BlockCyclic.BlockCyclicRunNoThreads | Assignment2/Collatz_Code/parallel_collatz.cpp:109-133 | Corollary of `CollatzMax.Spawned`: when `run` starts no thread, a range's entry stays 0. That is wrong for any range whose first index has a nonzero step count. |
| CollatzArgs.ZeroThreadsAccepted | Assignment2/Collatz_Code/parallel_collatz.cpp:160-168 | As written, `-n 0` with one range is accepted and starts no thread. The range is then reported with maximum 0, which is not its maximum when its first index has a nonzero step count. The corrected checks refuse `-n 0`. |
| MinizNames.IsDot | Assignment3/Miniz_Code/utility.hpp:121-125 | `.` and `..` are skipped. |
| MinizNames.IsDotEndsInDot | Assignment3/Miniz_Code/utility.hpp:121-125 | A name is skipped exactly when it is some stem followed by a dot. |
| MinizNames.IsDotOverreaches | Assignment3/Miniz_Code/utility.hpp:121-125 | Corollary of `MinizNames.IsDot`. `a.` is skipped although it is neither `.` nor `..`. |
| MinizNames.Descend | Assignment3/Miniz_Code/utility.hpp:282-301 | The walk enters exactly the listed subdirectories that the skip test does not reject. |
| MinizNames.DescendMissesTrailingDot | Assignment3/Miniz_Code/utility.hpp:291-301 | Corollary of `MinizNames.Descend`. As written, the walk never enters a subdirectory called `a.`. |
| MinizNames.DescendVisitsAll | Assignment3/Miniz_Code/utility.hpp:291-301 | Corollary of `MinizNames.Descend`. With the corrected test, the walk enters every subdirectory other than `.` and `..`. |
| MinizNames.DescendAsWrittenFewer | Assignment3/Miniz_Code/utility.hpp:291-301 | Corollary of `MinizNames.Descend`. Every subdirectory the as-written walk enters, the corrected walk enters too. |
| MinizNames.DiscardIt | Assignment3/Miniz_Code/utility.hpp:149-157 | A compressing run discards exactly the names of the form stem + `.zip` with a nonempty stem. A decompressing run discards exactly the other names. |
| MinizNames.DiscardComplement | Assignment3/Miniz_Code/utility.hpp:149-157 | Corollary of `MinizNames.DiscardIt`. The two modes discard complementary sets of names. |
| MinizNames.DiscardCompressedName | Assignment3/Miniz_Code/utility.hpp:149-157 | Corollary of `MinizNames.DiscardIt`. A name a compressing run writes is skipped by the next compressing run and taken by a decompressing one. |
| MinizNames.DiscardBareSuffix | Assignment3/Miniz_Code/utility.hpp:152 | Corollary of `MinizNames.DiscardIt`. A name that is only `.zip` does not count as compressed, because its length is not greater than the suffix's. |
| MinizNames.ToProcess | Assignment3/Miniz_Code/minizpar.cpp:25-87 | A run's file list is exactly the given names that `discardIt` keeps. |
| MinizNames.DecompressedName | Assignment3/Miniz_Code/utility.hpp:561 | The output name plus the input's last four characters is the input name. A name shorter than the suffix is kept whole, because `size_t` subtraction wraps. |
| MinizNames.DecompressedNameFixed | Assignment3/Miniz_Code/utility.hpp:223 | The older path removes exactly four characters from any name of four or more characters. |
| MinizNames.DecompressedNamesAgree | Assignment3/Miniz_Code/utility.hpp:223 | Corollary of `MinizNames.DecompressedName` and `MinizNames.DecompressedNameFixed`. The hard-coded 4 equals `strlen(SUFFIX)`, so both paths name the output alike for every name. |
| MinizNames.DecompressedNameRoundTrip | Assignment3/Miniz_Code/utility.hpp:561 | Decompressing `stem.zip` writes `stem`, the name it was compressed from. |
| MinizNames.KeptNameSplits | Assignment3/Miniz_Code/utility.hpp:561 | Every name a decompressing run keeps is a nonempty output name followed by `.zip`. |
| MinizNames.GetOption | Assignment3/Miniz_Code/utility.hpp:171-175 | The result is null exactly when the option is absent, or its first occurrence is the last argument. |
| MinizNames.GetOptionValue | Assignment3/Miniz_Code/utility.hpp:171-175 | The argument right after the first occurrence is returned, whatever follows. |
| MinizNames.GetOptionLast | Assignment3/Miniz_Code/utility.hpp:171-175 | An option given only as the last argument has no value. |
| MinizNames.GetOptionFirstWins | Assignment3/Miniz_Code/utility.hpp:171-175 | Only the first occurrence counts. |
| MinizFrame.FromLEOfLE | Assignment3/Miniz_Code/utility.hpp:555-558 | Reading a `size_t` back from the bytes written for it gives the value written. |
| MinizFrame.LEOfFromLE | Assignment3/Miniz_Code/utility.hpp:555-558 | Every 8 header bytes are the encoding of the value read from them. |
| MinizFrame.ReadChunks | Assignment3/Miniz_Code/utility.hpp:577-582 | The metadata loop reads `n_chunks` entries, each a length and then that many bytes. It returns them with the unread rest, and together they re-encode to its input. |
| MinizFrame.Parse | Assignment3/Miniz_Code/utility.hpp:555-582 | Any container that parses starts with the encoding of what was parsed: a chunk count equal to the number of chunks, a size below 2^64, and the chunks. The only failure is running out of bytes. |
| MinizFrame.ParseEncode | Assignment3/Miniz_Code/utility.hpp:520-528 | Parsing what the compressor writes, followed by anything, recovers the chunk count, the original size and every chunk's bytes in order. |
| MinizFrame.ParseShortHeader | Assignment3/Miniz_Code/utility.hpp:555-558 | An input shorter than the two header words does not parse. |
| MinizFrame.ParseChunked | Assignment3/Miniz_Code/utility.hpp:379-389 | The older reader refuses with `TooShort` exactly the inputs shorter than 20 bytes (4 + 2*8). Anything it accepts starts, after the magic, with the encoding of what it read. |
| MinizFrame.ParseChunkedEncode | Assignment3/Miniz_Code/utility.hpp:361-370 | The older reader recovers what the older writer wrote: magic, count, size and chunks. |
| MinizFrame.ChunkedIsDetected | Assignment3/Miniz_Code/utility.hpp:435-440 | A file in the older chunked format is sent to the chunked reader. |
| MinizFrame.SingleIsNotChunked | Assignment3/Miniz_Code/utility.hpp:428-440 | A file compressed whole, which happens below CHUNK_SIZE, is never mistaken for the chunked format. |
| MinizFrame.ChunkCount | Assignment3/Miniz_Code/utility.hpp:332 | The rounded-up count leaves no chunk empty. |
| MinizFrame.ChunkCountCovers | Assignment3/Miniz_Code/utility.hpp:332 | Corollary of the definition of `MinizFrame.ChunkCount`. The rounded-up count's chunks cover the whole file, and none of them starts past its end. |
| MinizFrame.ChunkCountAsWritten | Assignment3/Miniz_Code/utility.hpp:474 | The truncating count covers the file only up to its last full chunk. Fewer than CHUNK_SIZE bytes are always left over. |
| MinizFrame.ChunkCountAsWrittenShort | Assignment3/Miniz_Code/utility.hpp:474 | Corollary of the definitions of the two chunk counts. When the size is not a multiple of CHUNK_SIZE, the truncating count covers less than the file and is below the rounded-up count. |
| MinizFrame.SmallFileHasNoChunk | Assignment3/Miniz_Code/utility.hpp:474 | Corollary of the definitions of the two chunk counts. A nonempty file smaller than CHUNK_SIZE gets zero chunks as written, against one rounded up. |
| MinizFrame.ChunkLen | Assignment3/Miniz_Code/utility.hpp:488-489 | A chunk is at most CHUNK_SIZE long and ends within the file. |
| MinizFrame.ChunkOf | Assignment3/Miniz_Code/utility.hpp:488-489 | Chunk i covers offset k exactly when k is in the file and k / CHUNK_SIZE = i. The chunks are therefore disjoint and contiguous. |
| MinizFrame.Piece | Assignment3/Miniz_Code/utility.hpp:488-498 | Chunk i's input holds the file's bytes starting at i * CHUNK_SIZE, for the chunk's length. |
| MinizFrame.Take | Assignment3/Miniz_Code/utility.hpp:590-594 | `uncompress` writes a prefix of its output, never more than the capacity, and all of it when it fits. |
| MinizFrame.Place | Assignment3/Miniz_Code/utility.hpp:590-594 | Writing at an offset changes exactly the positions written. |
| MinizFrame.Fill | Assignment3/Miniz_Code/utility.hpp:584-596 | The output file has the original size. Each position holds the byte its chunk decompressed to, or 0 where no chunk wrote. |
| MinizFrame.DecompressFile | Assignment3/Miniz_Code/utility.hpp:541-605 | A decompressed file has the size recorded in its header. |
| MinizFrame.FileRoundTrip | Assignment3/Miniz_Code/utility.hpp:453-605 | With the rounded-up chunk count, decompressing what the compressor wrote gives back the original file exactly. |
| MinizFrame.AsWrittenDropsTail | Assignment3/Miniz_Code/utility.hpp:474 | As written, decompressing gives back the file up to its last full chunk, followed by zeros to the original size. |
| MinizFrame.SmallFileZeroed | Assignment3/Miniz_Code/utility.hpp:474 | As written, the one-byte file `A` comes back as a single zero byte. |

## Left out

- Concurrency is not modelled: FastFlow nodes, OpenMP tasks, `std::thread`, mutexes and atomics. Worker and thread steps are atomic and run one after another. The proved results are independent of their order: `Farm.ExecutedUnique`, `CollatzMax.FoldOrderFree`.
- MPI calls, timers, printing, `MPI_Abort`/`CHECK_ERROR` and the random test data (`rand_init_ints`) are not modelled: they are I/O.
- Task allocation and deletion, including the task leaked on the `send_task` path, are memory management with no effect on the result.
- The `CHUNK_SIZE` selection in mergesort_mpi.cpp `main` is not modelled. The scatter and merge chunk sizes are parameters: any positive value, subject to the `int` byte-count limit on the `Transport.RecvSend` line.
- `cmdline.hpp` of both assignments is left out. It is `getopt` handling of process globals; the `parseLen` it calls is modelled.
- Distributed.ReceiveMerge: a chunk whose key or payload count differs from the announced length is the error `LengthMismatch`, because MPI's truncation of such a message is not modelled.
- Distributed.DistributedSort: it is proved for the corrected merge-phase sender (`Transport.SendRecords`) and the corrected `internal_work` (`Distributed.InternalWork`). As written, the engine loses records once a subtree holds more than one merge chunk (`Transport.AsWrittenLosesRecords`). With one thread and two or more processes it also indexes past the block (`Distributed.BlocksShorterThanTotal`). The same holds for `Distributed.ProcessRank` and `Distributed.MpiMain`.
- Distributed.DistributedSort: the MPI engine's `int` record counts and offsets are unbounded here, so inputs of 2^31 or more records are outside the model. The payload byte counts on the next line overflow much earlier.
- Transport.RecvSend: the source computes payload byte counts as the `int` product `chunk_size * RPAYLOAD` (mergesort_mpi.cpp:339, 354, 396, 403, 459, 466, 509, 514, 542, 553). The byte offsets `j * RPAYLOAD` and `i * RPAYLOAD` (:344, 412, 474, 522, 546) are `int` products too. Here they are unbounded. A chunk with `chunk * plen >= 2^31` overflows in the source, and is outside the model. `main` keeps `CHUNK_SIZE = 5'000'000` when `RPAYLOAD >= 129` (:15, :606-612), so `-r 512` with 10M records on 2 processes already overflows (5'000'000 * 512 > INT_MAX). The same limit applies to `Transport.ScatterDelivers` and `Distributed.DistributedSort`.
- Helpers.ParseLenSuffixed: the product `base * multiplier` is unbounded, so the `long long` overflow of a huge suffixed length is not modelled.
- Helpers.IsNumber: does not model that the output parameter is assigned even when trailing characters make the call return false.
- Helpers.IsNumber also stands for `isNumber` in utility.hpp:160-170, which is the same function.
- CollatzSteps.Steps: it needs the start to reach 1, because the source loops forever otherwise and termination of the Collatz loop is an open problem.
- CollatzSteps.SequentialMaxima: assumes every start of every range reaches 1, for the same reason. It also leaves out the wrap of `++i` when `end` is ULLONG_MAX, which makes the source loop forever.
- BlockCyclic.VisitsMember: the indices `start + thread_id * chunk_size` and `i += shift` are unbounded, so their `int` and 64-bit overflow for ranges near ULLONG_MAX is not modelled.
- DynamicTasks.CallsClosed: it describes the call sequence only while `start + k * chunk_size` stays below 2^64. The counter's wrap after that point is modelled in `GetNextTask` but not followed through the tiling lemmas.
- MinizFrame.DecompressFile: a header whose chunk count puts a chunk outside the recorded size is the error `ChunkOutsideFile`. The source writes outside the output mapping there.
- MinizFrame.Parse: the source reads a truncated container out of bounds, while the model reports `Truncated`.
- MinizFrame.IsChunked: the magic read on a file shorter than four bytes is out of bounds in the source. The model says such a file is not chunked.
- compress/uncompress: miniz's `compress` and `uncompress` are foreign calls. They are function parameters here, with their errors ignored as the source ignores them. `Inverse` (uncompress undoes compress) and `Bounded` (compressed sizes fit a `size_t`) are stated as assumptions of the round-trip lemmas.
- The `size_t` header words are taken as 8 little-endian bytes, the x86-64 layout.
- `decompressDataChunked`'s per-chunk decompression is not modelled separately. It is the same arithmetic as `decompressParallelFile`, and only its header checks are modelled (`MinizFrame.ParseChunked`).
- The body of `decompressData` is not modelled, only its output name. It holds a size word followed by one compressed blob.
- `mapFile`, `unmapFile`, `allocateFile`, `isDirectory` and the directory reading of `walkDir`/`minizpar.cpp` are left out: they are filesystem I/O. Mapping an empty file fails in the source; here every file is a byte sequence.
- Names are strings without NUL characters, so `strlen` is the sequence length.
- `std::stoull`, `std::stoi` and `std::stol` throwing exceptions become error outcomes, because the program ends in both cases.
- `softmax_avx.cpp` and the Python experiment scripts are left out: floating-point SIMD, and log scraping and plotting.

## Findings

| source | as written | input that shows it | evidently intended | confidence | as-written member | corrected member |
|---|---|---|---|---|---|---|
| Assignment4/MergeSort_Code/mergesort_mpi.cpp:545-546 | The merge-phase sender copies `local_data[j]` for the j-th record of every chunk, so every chunk repeats the start of the array. | Two records, chunk size 1: the parent receives the first record twice and never the second. | `local_data[number_sent + j]`, so the stream carries the array in order. | not executed | Transport.AsWrittenLosesRecords | Transport.RecvSend |
| Assignment4/MergeSort_Code/mergesort_mpi.cpp:260 | The one-thread path of `internal_work` sorts `[0, SIZE)` whatever the buffer's length. | Two processes, SIZE = 2, one thread: each rank's buffer holds one record, and sorting indexes past it. | Sort `[0, data.size())`. | not executed | Distributed.InternalWorkAsWritten | Distributed.InternalWork |
| Assignment3/Miniz_Code/utility.hpp:474 | `n_chunks = size / CHUNK_SIZE` rounds down, although the comment and the older writer at line 332 round up. The tail after the last full chunk is never compressed. | A one-byte file `A` is written with zero chunks and decompresses to one zero byte. | `(size + CHUNK_SIZE - 1) / CHUNK_SIZE`. | not executed | MinizFrame.AsWrittenDropsTail | MinizFrame.FileRoundTrip |
| Assignment3/Miniz_Code/utility.hpp:121-125 | `isdot` is true for every name ending in a dot, not only for `.` and `..` as its comment says. | A subdirectory named `a.` is never walked. `walkDir` is not reached from minizpar.cpp, so the defect is latent. | Skip only `.` and `..`. | not executed | MinizNames.DescendMissesTrailingDot | MinizNames.DescendVisitsAll |
| Assignment2/Collatz_Code/parallel_collatz.cpp:186-195 | The parallel driver does not refuse a zero bound, unlike sequential_collatz.cpp:47-50. | `0-5`: `collatz(0)` never reaches 1, so the run does not end. | Refuse `start == 0` or `end == 0`. | not executed | CollatzArgs.ZeroRangeAccepted | CollatzArgs.ParseZeroBound |
| Assignment2/Collatz_Code/parallel_collatz.cpp:169-177 | `-c 0` passes `is_number` and is accepted. | `-c 0 1-5`: the default block-cyclic policy's period `num_threads * chunk_size` is 0. Each thread's index stays at 1 with `i += 0` and the run never ends. | Refuse a zero chunk size. | not executed | CollatzArgs.ZeroChunkSpins | CollatzArgs.ParseZeroFlag |
| Assignment2/Collatz_Code/parallel_collatz.cpp:169-177 | `-c 0` is also accepted together with `-d`. | `-d -c 0 1-5`: the dynamic policy's task counter never advances, so the run never ends. | Refuse a zero chunk size. | not executed | CollatzArgs.ZeroChunkStalls | CollatzArgs.ParseZeroFlag |
| Assignment2/Collatz_Code/parallel_collatz.cpp:160-168 | `-n 0` passes `is_number` and is accepted. | `-n 0 1-5`: no thread is created, and every maximum is reported as 0. | Refuse a zero thread count. | not executed | CollatzArgs.ZeroThreadsAccepted | CollatzArgs.ParseZeroFlag |
