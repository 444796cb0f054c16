/**
 * Block decomposition of `[0, total)` into `parts` contiguous blocks whose
 * lengths differ by at most one, the first `total % parts` blocks getting
 * the extra record.  The farm coordinator splits its array this way
 * (Assignment4/MergeSort_Code/mergesort_par.cpp:145-160) and the MPI master
 * splits the global array across processes the same way
 * (Assignment4/MergeSort_Code/mergesort_mpi.cpp:312-323).
 */
module Blocks {

  function Min(a: nat, b: nat): nat {
    if a <= b then a else b
  }

  /** Length of block `i`: the quotient, plus one for each of the first `total % parts` blocks. */
  function BlockLen(total: nat, parts: nat, i: nat): nat
    requires parts >= 1
  {
    total / parts + (if i < total % parts then 1 else 0)
  }

  /** First index of block `i`: the sum of the lengths of the blocks before it. */
  function BlockStart(total: nat, parts: nat, i: nat): nat
    requires parts >= 1
    decreases i
  {
    if i == 0 then 0 else BlockStart(total, parts, i - 1) + BlockLen(total, parts, i - 1)
  }

  /** Closed form of the prefix sums: `i * (total / parts) + min(i, total % parts)`. */
  lemma {:induction false} BlockStartClosed(total: nat, parts: nat, i: nat)
    requires parts >= 1
    ensures BlockStart(total, parts, i) == i * (total / parts) + Min(i, total % parts)
    decreases i
  {
    if i > 0 {
      BlockStartClosed(total, parts, i - 1);
      assert i * (total / parts) == (i - 1) * (total / parts) + total / parts;
    }
  }

  /** The blocks cover the whole range: block `parts` starts at `total`. */
  lemma BlockEnd(total: nat, parts: nat)
    requires parts >= 1
    ensures BlockStart(total, parts, parts) == total
  {
    BlockStartClosed(total, parts, parts);
    assert total % parts < parts;
    assert parts * (total / parts) + total % parts == total;
  }

  /** Block starts never decrease. */
  lemma {:induction false} BlockMonotone(total: nat, parts: nat, i: nat, j: nat)
    requires parts >= 1 && i <= j
    ensures BlockStart(total, parts, i) <= BlockStart(total, parts, j)
    decreases j
  {
    if i < j {
      BlockMonotone(total, parts, i, j - 1);
    }
  }

  /** Blocks `a` to `b` form a slice of the range: `BlockStart(a) <= BlockStart(b) <= total`. */
  lemma BlockRange(total: nat, parts: nat, a: nat, b: nat)
    requires parts >= 1 && a <= b <= parts
    ensures BlockStart(total, parts, a) <= BlockStart(total, parts, b) <= total
  {
    BlockMonotone(total, parts, a, b);
    BlockMonotone(total, parts, b, parts);
    BlockEnd(total, parts);
  }

  /** Any two blocks differ in length by at most one, and the longer ones come first. */
  lemma BlockBalanced(total: nat, parts: nat, i: nat, j: nat)
    requires parts >= 1 && i <= j < parts
    ensures BlockLen(total, parts, j) <= BlockLen(total, parts, i) <= BlockLen(total, parts, j) + 1
  {
  }
}
