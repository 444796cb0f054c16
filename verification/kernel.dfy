/**
 * The sequential merge-sort kernel: `merge` and `mergesort_seq`, identical in
 * Assignment4/MergeSort_Code/mergesort_seq.cpp, mergesort_par.cpp and
 * mergesort_mpi.cpp.
 *
 * The C++ functions update a record vector and a scratch vector passed by
 * reference; here each vector is passed in as a sequence and its new
 * contents are returned.  `MergeSeq` is the reference two-way merge the
 * imperative `Merge` is proved to compute, and `StableSort` is the stable
 * sort by key that stands for `std::stable_sort` in the base case.
 */
module Kernel {
  import opened Records
  import opened Order

  // ---------------------------------------------------------------------
  // Reference merge
  // ---------------------------------------------------------------------

  /** Two-way merge of `a` and `b`; on equal keys the record of `a` goes first. */
  function MergeSeq(a: seq<Record>, b: seq<Record>): seq<Record>
    decreases |a| + |b|
  {
    if |a| == 0 then b
    else if |b| == 0 then a
    else if a[0].key <= b[0].key then [a[0]] + MergeSeq(a[1..], b)
    else [b[0]] + MergeSeq(a, b[1..])
  }

  lemma {:induction false} MergeSeqPermutes(a: seq<Record>, b: seq<Record>)
    ensures multiset(MergeSeq(a, b)) == multiset(a) + multiset(b)
    ensures |MergeSeq(a, b)| == |a| + |b|
    decreases |a| + |b|
  {
    if |a| > 0 && |b| > 0 {
      if a[0].key <= b[0].key {
        MergeSeqPermutes(a[1..], b);
        PrependPermutes(a, MergeSeq(a[1..], b), b);
      } else {
        MergeSeqPermutes(a, b[1..]);
        PrependPermutes(b, MergeSeq(a, b[1..]), a);
      }
    }
  }

  /** Putting the head of `s` in front of a permutation of `s[1..] + other`. */
  lemma PrependPermutes(s: seq<Record>, rest: seq<Record>, other: seq<Record>)
    requires |s| > 0
    requires multiset(rest) == multiset(s[1..]) + multiset(other) && |rest| == |s| - 1 + |other|
    ensures multiset([s[0]] + rest) == multiset(s) + multiset(other)
    ensures |[s[0]] + rest| == |s| + |other|
  {
    assert s == [s[0]] + s[1..];
  }

  /** Every record of a merge comes from one of its inputs. */
  lemma MergeSeqMembers(a: seq<Record>, b: seq<Record>)
    ensures forall x :: x in MergeSeq(a, b) ==> x in a || x in b
  {
    MergeSeqPermutes(a, b);
    forall x | x in MergeSeq(a, b) ensures x in a || x in b {
      assert x in multiset(MergeSeq(a, b));
    }
  }

  lemma {:induction false} MergeSeqSorted(a: seq<Record>, b: seq<Record>)
    requires Sorted(a) && Sorted(b)
    ensures Sorted(MergeSeq(a, b))
    decreases |a| + |b|
  {
    if |a| > 0 && |b| > 0 {
      if a[0].key <= b[0].key {
        MergeSeqSorted(a[1..], b);
        MergeSeqMembers(a[1..], b);
        SortedLowerBound(a);
        SortedLowerBound(b);
        SortedCons(a[0], MergeSeq(a[1..], b));
      } else {
        MergeSeqSorted(a, b[1..]);
        MergeSeqMembers(a, b[1..]);
        SortedLowerBound(a);
        SortedLowerBound(b);
        SortedCons(b[0], MergeSeq(a, b[1..]));
      }
    }
  }

  /** Merging keeps each key run of the left input ahead of the right input's. */
  lemma {:induction false} MergeSeqStable(a: seq<Record>, b: seq<Record>, k: nat)
    requires Sorted(a) && Sorted(b)
    ensures KeyRun(MergeSeq(a, b), k) == KeyRun(a, k) + KeyRun(b, k)
    decreases |a| + |b|
  {
    if |a| == 0 {
    } else if |b| == 0 {
    } else if a[0].key <= b[0].key {
      MergeSeqStable(a[1..], b, k);
      PrependRunLeft(a, MergeSeq(a[1..], b), b, k);
    } else {
      MergeSeqStable(a, b[1..], k);
      if b[0].key == k {
        SortedRunBelowHead(a, k);
      }
      PrependRunRight(a, b, MergeSeq(a, b[1..]), k);
    }
  }

  /** Taking the head of the left input keeps the runs in order. */
  lemma PrependRunLeft(a: seq<Record>, rest: seq<Record>, b: seq<Record>, k: nat)
    requires |a| > 0 && KeyRun(rest, k) == KeyRun(a[1..], k) + KeyRun(b, k)
    ensures KeyRun([a[0]] + rest, k) == KeyRun(a, k) + KeyRun(b, k)
  {
    var ra, rb := KeyRun(a[1..], k), KeyRun(b, k);
    KeyRunCons(a[0], rest, k);
    if a[0].key == k {
      assert [a[0]] + (ra + rb) == ([a[0]] + ra) + rb;
    } else {
      assert KeyRun([a[0]] + rest, k) == ra + rb;
    }
  }

  /** Taking the head of the right input keeps the runs in order when the left has none of its key. */
  lemma PrependRunRight(a: seq<Record>, b: seq<Record>, rest: seq<Record>, k: nat)
    requires |b| > 0 && KeyRun(rest, k) == KeyRun(a, k) + KeyRun(b[1..], k)
    requires b[0].key == k ==> KeyRun(a, k) == []
    ensures KeyRun([b[0]] + rest, k) == KeyRun(a, k) + KeyRun(b, k)
  {
    KeyRunCons(b[0], rest, k);
  }

  /** The three laws of the merge primitive: sortedness, permutation and stability. */
  lemma MergeSeqLaws(a: seq<Record>, b: seq<Record>)
    requires Sorted(a) && Sorted(b)
    ensures Sorted(MergeSeq(a, b))
    ensures multiset(MergeSeq(a, b)) == multiset(a) + multiset(b)
    ensures forall k :: KeyRun(MergeSeq(a, b), k) == KeyRun(a, k) + KeyRun(b, k)
  {
    MergeSeqSorted(a, b);
    MergeSeqPermutes(a, b);
    forall k | true ensures KeyRun(MergeSeq(a, b), k) == KeyRun(a, k) + KeyRun(b, k) {
      MergeSeqStable(a, b, k);
    }
  }

  // ---------------------------------------------------------------------
  // Stable base-case sort (std::stable_sort by key)
  // ---------------------------------------------------------------------

  /** Inserts `x` into `t` after every leading record whose key is at most `x.key`. */
  function Insert(x: Record, t: seq<Record>): seq<Record>
    decreases |t|
  {
    if |t| == 0 then [x]
    else if x.key < t[0].key then [x] + t
    else [t[0]] + Insert(x, t[1..])
  }

  /** Insertion adds `x` and nothing else. */
  lemma {:induction false} InsertMembers(x: Record, t: seq<Record>)
    ensures forall y :: y in Insert(x, t) ==> y == x || y in t
    decreases |t|
  {
    if |t| > 0 && t[0].key <= x.key {
      InsertMembers(x, t[1..]);
    }
  }

  /** Insertion into a sorted sequence keeps it sorted. */
  lemma {:induction false} InsertSorted(x: Record, t: seq<Record>)
    requires Sorted(t)
    ensures Sorted(Insert(x, t))
    decreases |t|
  {
    if |t| == 0 {
    } else if x.key < t[0].key {
      SortedLowerBound(t);
      SortedCons(x, t);
    } else {
      var rest := Insert(x, t[1..]);
      InsertSorted(x, t[1..]);
      InsertMembers(x, t[1..]);
      SortedLowerBound(t);
      forall y | y in rest ensures t[0].key <= y.key {
        assert y in t[1..] ==> y in t;
      }
      SortedCons(t[0], rest);
    }
  }

  /** Insertion places `x` after every record of `t` with the same key. */
  lemma {:induction false} InsertStable(x: Record, t: seq<Record>, k: nat)
    requires Sorted(t)
    ensures KeyRun(Insert(x, t), k) == KeyRun(t, k) + KeyRun([x], k)
    decreases |t|
  {
    if |t| == 0 {
      assert Insert(x, t) == [x];
    } else if x.key < t[0].key {
      InsertBeforeStable(x, t, k);
    } else {
      InsertStable(x, t[1..], k);
      InsertAfterStable(x, t, k);
    }
  }

  lemma InsertBeforeStable(x: Record, t: seq<Record>, k: nat)
    requires Sorted(t) && |t| > 0 && x.key < t[0].key
    ensures KeyRun(Insert(x, t), k) == KeyRun(t, k) + KeyRun([x], k)
  {
    assert Insert(x, t) == [x] + t;
    KeyRunAppend([x], t, k);
    if k == x.key {
      SortedRunBelowHead(t, k);
    }
  }

  lemma InsertAfterStable(x: Record, t: seq<Record>, k: nat)
    requires Sorted(t) && |t| > 0 && t[0].key <= x.key
    requires KeyRun(Insert(x, t[1..]), k) == KeyRun(t[1..], k) + KeyRun([x], k)
    ensures KeyRun(Insert(x, t), k) == KeyRun(t, k) + KeyRun([x], k)
  {
    var rest := Insert(x, t[1..]);
    assert Insert(x, t) == [t[0]] + rest;
    PrependRunLeft(t, rest, [x], k);
  }

  /**
   * Stable sort by key: insertion sort that inserts each record after the
   * already-sorted records with equal keys.
   */
  function StableSort(s: seq<Record>): (r: seq<Record>)
    ensures StableSortOf(r, s)
    decreases |s|
  {
    if |s| == 0 then []
    else
      var p := StableSort(s[..|s| - 1]);
      InsertExtends(s, p);
      Insert(s[|s| - 1], p)
  }

  /** Inserting the last record into a stable sort of the rest stably sorts the whole. */
  lemma InsertExtends(s: seq<Record>, p: seq<Record>)
    requires |s| > 0 && StableSortOf(p, s[..|s| - 1])
    ensures StableSortOf(Insert(s[|s| - 1], p), s)
  {
    var n := |s| - 1;
    InsertSorted(s[n], p);
    assert s == s[..n] + [s[n]];
    forall k | true ensures KeyRun(Insert(s[n], p), k) == KeyRun(s, k) {
      InsertStable(s[n], p, k);
      KeyRunAppend(s[..n], [s[n]], k);
    }
  }

  // ---------------------------------------------------------------------
  // The imperative kernel
  // ---------------------------------------------------------------------

  /** `a` and `b` have the same length and agree everywhere outside `[lo, hi)`. */
  ghost predicate SameOutside(a: seq<Record>, b: seq<Record>, lo: nat, hi: nat) {
    |a| == |b| && forall p :: 0 <= p < |a| && (p < lo || hi <= p) ==> a[p] == b[p]
  }

  /** `s` with its range `[lo, hi)` replaced by `mid`, which has the same length. */
  function Splice(s: seq<Record>, lo: nat, hi: nat, mid: seq<Record>): (r: seq<Record>)
    requires lo <= hi <= |s| && |mid| == hi - lo
    ensures SameOutside(r, s, lo, hi) && r[lo..hi] == mid
  {
    s[..lo] + mid + s[hi..]
  }

  /** A slice lying outside the changed range is unchanged. */
  lemma SameOutsideSlice(a: seq<Record>, b: seq<Record>, lo: nat, hi: nat, x: nat, y: nat)
    requires SameOutside(a, b, lo, hi) && x <= y <= |a| && (y <= lo || hi <= x)
    ensures a[x..y] == b[x..y]
  {
  }

  lemma TakeLeft(v: seq<Record>, i: nat, mid: nat, j: nat, right: nat)
    requires i < mid <= j <= right <= |v| && (j == right || v[i].key <= v[j].key)
    ensures MergeSeq(v[i..mid], v[j..right]) == [v[i]] + MergeSeq(v[i + 1..mid], v[j..right])
  {
    assert v[i..mid][0] == v[i] && v[i..mid][1..] == v[i + 1..mid];
  }

  lemma TakeRight(v: seq<Record>, i: nat, mid: nat, j: nat, right: nat)
    requires i <= mid <= j < right <= |v| && (i == mid || v[i].key > v[j].key)
    ensures MergeSeq(v[i..mid], v[j..right]) == [v[j]] + MergeSeq(v[i..mid], v[j + 1..right])
  {
    assert v[j..right][0] == v[j] && v[j..right][1..] == v[j + 1..right];
  }

  lemma AppendShift(out: seq<Record>, x: Record, rest: seq<Record>)
    ensures (out + [x]) + rest == out + ([x] + rest)
  {
  }

  /** The merge of two exhausted runs is empty. */
  lemma MergeDone(v: seq<Record>, mid: nat, right: nat)
    requires mid <= right <= |v|
    ensures MergeSeq(v[mid..mid], v[right..right]) == []
  {
  }

  /**
   * `merge(v, dst, left, mid, right)`: interleaves the runs `v[left..mid]` and
   * `v[mid..right]` into `dst[left..right]`, taking from the left run while
   * its key is `<=`, then copies `dst[left..right]` back into `v`.  The
   * source's main loop and its two drain loops are folded into one loop whose
   * guard takes from the left run exactly when the source would; `out` is
   * the prefix `dst[left..k]` written so far.
   */
  method Merge(v: seq<Record>, dst: seq<Record>, left: nat, mid: nat, right: nat)
    returns (v': seq<Record>, dst': seq<Record>)
    requires left <= mid <= right <= |v| && right <= |dst|
    ensures SameOutside(v', v, left, right) && SameOutside(dst', dst, left, right)
    ensures v'[left..right] == MergeSeq(v[left..mid], v[mid..right])
    ensures dst'[left..right] == v'[left..right]
    ensures multiset(v'[left..right]) == multiset(v[left..right])
    ensures Sorted(v[left..mid]) && Sorted(v[mid..right]) ==>
              Sorted(v'[left..right])
              && forall k :: KeyRun(v'[left..right], k) == KeyRun(v[left..mid], k) + KeyRun(v[mid..right], k)
  {
    var i, j, k := left, mid, left;
    ghost var whole := MergeSeq(v[left..mid], v[mid..right]);
    var out: seq<Record> := [];
    while k < right
      invariant left <= i <= mid <= j <= right && k == i + j - mid
      invariant |out| == k - left
      invariant out + MergeSeq(v[i..mid], v[j..right]) == whole
    {
      if i < mid && (j == right || v[i].key <= v[j].key) {
        TakeLeft(v, i, mid, j, right);
        AppendShift(out, v[i], MergeSeq(v[i + 1..mid], v[j..right]));
        out := out + [v[i]];
        i := i + 1;
      } else {
        TakeRight(v, i, mid, j, right);
        AppendShift(out, v[j], MergeSeq(v[i..mid], v[j + 1..right]));
        out := out + [v[j]];
        j := j + 1;
      }
      k := k + 1;
    }
    MergeDone(v, mid, right);
    dst' := Splice(dst, left, right, out);
    // Copy the merged range back into v.
    v' := Splice(v, left, right, out);
    MergeSlicesLaws(v, left, mid, right);
  }

  /** What `MergeSeq` guarantees, stated for the two adjacent runs of `v`. */
  lemma MergeSlicesLaws(v: seq<Record>, left: nat, mid: nat, right: nat)
    requires left <= mid <= right <= |v|
    ensures multiset(MergeSeq(v[left..mid], v[mid..right])) == multiset(v[left..right])
    ensures Sorted(v[left..mid]) && Sorted(v[mid..right]) ==>
              Sorted(MergeSeq(v[left..mid], v[mid..right]))
              && forall k :: KeyRun(MergeSeq(v[left..mid], v[mid..right]), k) == KeyRun(v[left..mid], k) + KeyRun(v[mid..right], k)
  {
    MergeSeqPermutes(v[left..mid], v[mid..right]);
    assert v[left..right] == v[left..mid] + v[mid..right];
    if Sorted(v[left..mid]) && Sorted(v[mid..right]) {
      MergeSeqLaws(v[left..mid], v[mid..right]);
    }
  }

  /**
   * `mergesort_seq(v, tmp, left, right)`: ranges of at most BASE_CASE_SIZE
   * records are sorted by the stable base case; longer ones are split at
   * `left + size/2`, both halves sorted recursively, then merged.
   */
  method MergeSortSeq(v: seq<Record>, tmp: seq<Record>, left: nat, right: nat)
    returns (v': seq<Record>, tmp': seq<Record>)
    requires left <= right <= |v| && right <= |tmp|
    ensures SameOutside(v', v, left, right) && SameOutside(tmp', tmp, left, right)
    ensures StableSortOf(v'[left..right], v[left..right])
    ensures multiset(v'[left..right]) == multiset(v[left..right])
    decreases right - left
  {
    var size := right - left;
    if size <= BASE_CASE_SIZE {
      var sorted := StableSort(v[left..right]);
      StableSortIsPermutation(sorted, v[left..right]);
      v' := Splice(v, left, right, sorted);
      tmp' := tmp;
      return;
    }
    var mid := left + size / 2;
    var v1, t1 := MergeSortSeq(v, tmp, left, mid);
    var v2, t2 := MergeSortSeq(v1, t1, mid, right);
    SameOutsideSlice(v2, v1, mid, right, left, mid);
    SameOutsideSlice(v1, v, left, mid, mid, right);
    v', tmp' := Merge(v2, t2, left, mid, right);
    SortedHalvesMerge(v, v1, v2, v', left, mid, right);
  }

  /** The proof step of `MergeSortSeq`: merging the two stably sorted halves stably sorts the range. */
  lemma SortedHalvesMerge(v: seq<Record>, v1: seq<Record>, v2: seq<Record>, v3: seq<Record>,
                          left: nat, mid: nat, right: nat)
    requires left <= mid <= right <= |v| == |v1| == |v2| == |v3|
    requires StableSortOf(v1[left..mid], v[left..mid]) && v2[left..mid] == v1[left..mid]
    requires StableSortOf(v2[mid..right], v[mid..right])
    requires Sorted(v2[left..mid]) && Sorted(v2[mid..right]) ==>
               Sorted(v3[left..right])
               && forall k :: KeyRun(v3[left..right], k) == KeyRun(v2[left..mid], k) + KeyRun(v2[mid..right], k)
    ensures StableSortOf(v3[left..right], v[left..right])
    ensures multiset(v3[left..right]) == multiset(v[left..right])
  {
    assert v[left..right] == v[left..mid] + v[mid..right];
    StableConcat(v2[left..mid], v2[mid..right], v[left..mid], v[mid..right], v3[left..right]);
    StableSortIsPermutation(v3[left..right], v[left..right]);
  }
}
