/**
 * The merge tree of the MPI engine
 * (Assignment4/MergeSort_Code/mergesort_mpi.cpp:286-306).
 *
 * In round `k` (step `2^k`) every process whose rank is a multiple of
 * `2^(k+1)` receives the sorted data of rank `rank + 2^k`, when that rank
 * exists, and every process whose rank leaves remainder `2^k` sends its data
 * to `rank - 2^k` and leaves.  In closed form: rank `r > 0` receives from
 * `r + 2^i` for every `2^i` below its lowest set bit and then sends to
 * `r - lowbit(r)`; rank 0 receives from `1, 2, 4, ...` and never sends.
 */
module Partners {
  import opened Bits

  /** One entry of a process's schedule: the partner's rank, and whether this process sends to it. */
  datatype Partner = Partner(rank: nat, sends: bool)

  /** The schedule of `rank` from the round with step `2^k` on: the loop of `get_merge_partners`. */
  function PartnersFrom(rank: nat, size: nat, k: nat): seq<Partner>
    decreases size - Pow2(k)
  {
    var step := Pow2(k);
    if step >= size then []
    else if rank % (2 * step) == 0 then
      (if rank + step < size then [Partner(rank + step, false)] else []) + PartnersFrom(rank, size, k + 1)
    else if rank % (2 * step) == step then
      [Partner(rank - step, true)]
    else
      PartnersFrom(rank, size, k + 1)
  }

  /** `get_merge_partners(rank, size)`. */
  function MergePartners(rank: nat, size: nat): seq<Partner> {
    PartnersFrom(rank, size, 0)
  }

  /** Round `i` brings `rank` a child: every round for rank 0, the rounds below the lowest set bit otherwise. */
  predicate ChildRound(rank: nat, i: nat) {
    rank == 0 || i < LowExp(rank)
  }

  /** Reference definition of the receives of `rank` from round `k` on: one per child round whose partner exists. */
  function Receives(rank: nat, size: nat, k: nat): seq<Partner>
    decreases size - Pow2(k)
  {
    if Pow2(k) >= size || !ChildRound(rank, k) then []
    else (if rank + Pow2(k) < size then [Partner(rank + Pow2(k), false)] else []) + Receives(rank, size, k + 1)
  }

  /** The parent of rank `r > 0` in the merge tree. */
  function Parent(r: nat): nat
    requires r > 0
  {
    LowBitBound(r);
    r - LowBit(r)
  }

  /** The single send that ends the schedule of a nonzero rank. */
  function SendPart(rank: nat): seq<Partner> {
    if rank > 0 then [Partner(Parent(rank), true)] else []
  }

  lemma {:induction false} PartnersFromShape(rank: nat, size: nat, k: nat)
    requires rank < size && (rank == 0 || k <= LowExp(rank))
    ensures PartnersFrom(rank, size, k) == Receives(rank, size, k) + SendPart(rank)
    decreases size - Pow2(k)
  {
    var step := Pow2(k);
    assert Pow2(k + 1) == 2 * step;
    if rank == 0 {
      if step < size {
        assert 0 % (2 * step) == 0;
        PartnersFromShape(rank, size, k + 1);
      }
    } else {
      Pow2Monotone(k, LowExp(rank));
      LowBitBound(rank);
      assert step < size;
      ModAtLowBit(rank, k);
      if k < LowExp(rank) {
        PartnersFromShape(rank, size, k + 1);
        var head := if rank + step < size then [Partner(rank + step, false)] else [];
        assert head + (Receives(rank, size, k + 1) + SendPart(rank))
            == (head + Receives(rank, size, k + 1)) + SendPart(rank);
      }
    }
  }

  /**
   * The schedule of every rank: its receives, in increasing round order,
   * followed by one send to its parent unless it is the root.
   */
  lemma PartnersShape(rank: nat, size: nat)
    requires rank < size
    ensures MergePartners(rank, size) == Receives(rank, size, 0) + SendPart(rank)
  {
    PartnersFromShape(rank, size, 0);
  }

  /** A receive from round `k` on is exactly a partner `rank + 2^i` that exists, for a child round `i >= k`. */
  lemma {:induction false} ReceivesMembers(rank: nat, size: nat, k: nat, p: Partner)
    ensures p in Receives(rank, size, k) <==>
              !p.sends && p.rank < size && exists i :: k <= i && ChildRound(rank, i) && p.rank == rank + Pow2(i)
    decreases size - Pow2(k)
  {
    if Pow2(k) < size && ChildRound(rank, k) {
      assert Pow2(k + 1) == 2 * Pow2(k);
      ReceivesMembers(rank, size, k + 1, p);
      if !p.sends && p.rank < size && p.rank != rank + Pow2(k) {
        if i :| k <= i && ChildRound(rank, i) && p.rank == rank + Pow2(i) {
          assert k + 1 <= i;
        }
      }
    } else if !p.sends && p.rank < size {
      if i :| k <= i && ChildRound(rank, i) && p.rank == rank + Pow2(i) {
        Pow2Monotone(k, i);
      }
    }
  }

  /** Once the partner of a round lies past the last rank, no later round brings a receive. */
  lemma {:induction false} ReceivesBeyond(rank: nat, size: nat, k: nat)
    requires rank + Pow2(k) >= size
    ensures Receives(rank, size, k) == []
    decreases size - Pow2(k)
  {
    if Pow2(k) < size && ChildRound(rank, k) {
      assert Pow2(k + 1) == 2 * Pow2(k);
      ReceivesBeyond(rank, size, k + 1);
    }
  }

  /**
   * Entry `i` of the receives from round `k` on is the child of round
   * `k + i`, and the list stops at the first round whose partner is past the
   * last rank or that is not a child round.
   */
  lemma {:induction false} ReceivesIndexed(rank: nat, size: nat, k: nat)
    ensures forall i :: 0 <= i < |Receives(rank, size, k)| ==>
              Receives(rank, size, k)[i] == Partner(rank + Pow2(k + i), false)
              && ChildRound(rank, k + i) && rank + Pow2(k + i) < size
    ensures rank + Pow2(k + |Receives(rank, size, k)|) >= size || !ChildRound(rank, k + |Receives(rank, size, k)|)
    decreases size - Pow2(k)
  {
    if Pow2(k) < size && ChildRound(rank, k) {
      assert Pow2(k + 1) == 2 * Pow2(k);
      var r, t := Receives(rank, size, k), Receives(rank, size, k + 1);
      if rank + Pow2(k) < size {
        ReceivesIndexed(rank, size, k + 1);
        assert r == [Partner(rank + Pow2(k), false)] + t;
        forall i | 0 <= i < |r|
          ensures r[i] == Partner(rank + Pow2(k + i), false) && ChildRound(rank, k + i) && rank + Pow2(k + i) < size
        {
          if i > 0 {
            assert r[i] == t[i - 1] && k + i == (k + 1) + (i - 1);
          }
        }
        assert k + |r| == (k + 1) + |t|;
      } else {
        ReceivesBeyond(rank, size, k + 1);
      }
    }
  }

  /** With one process there is nobody to merge with. */
  lemma SingleProcess(rank: nat, size: nat)
    requires size <= 1
    ensures MergePartners(rank, size) == []
  {
  }

  /** Rank 0 receives from ranks `1, 2, 4, ...`, every power of two below `size`, and never sends. */
  lemma RootSchedule(size: nat)
    requires size >= 1
    ensures forall i :: 0 <= i < |MergePartners(0, size)| ==>
              MergePartners(0, size)[i] == Partner(Pow2(i), false) && Pow2(i) < size
    ensures Pow2(|MergePartners(0, size)|) >= size
  {
    PartnersShape(0, size);
    var r := Receives(0, size, 0);
    assert MergePartners(0, size) == r + [];
    ReceivesIndexed(0, size, 0);
    forall i | 0 <= i < |r|
      ensures r[i] == Partner(Pow2(i), false) && Pow2(i) < size
    {
      assert 0 + i == i;
    }
  }

  /** The lowest set bit of `r + 2^i`, for a child round `i` of `r`, is bit `i`. */
  lemma ChildLowExp(r: nat, i: nat)
    requires ChildRound(r, i)
    ensures r + Pow2(i) > 0 && LowExp(r + Pow2(i)) == i
  {
    var g := Pow2(i + 1);
    assert g == 2 * Pow2(i);
    var t: nat := 0;
    if r > 0 {
      ModAtLowBit(r, i);
      t := r / g;
      assert r == g * t;
    }
    assert r + Pow2(i) == Pow2(i) * (2 * t + 1);
    LowExpOfOddMultiple(i, 2 * t + 1);
  }

  /** The parent of `p > 0` has `p`'s lowest set bit as a child round. */
  lemma ParentChildRound(p: nat)
    requires p > 0
    ensures ChildRound(Parent(p), LowExp(p)) && p == Parent(p) + Pow2(LowExp(p))
  {
    var x := Parent(p);
    ClearLowBit(p);
    assert x == p - LowBit(p);
    if x > 0 {
      assert LowExp(x) > LowExp(p);
    }
  }

  /**
   * The schedules agree: rank `r` receives from `p` exactly when `p` sends to `r`.
   */
  lemma PartnersSymmetric(r: nat, p: nat, size: nat)
    requires r < size && p < size
    ensures Partner(p, false) in MergePartners(r, size) <==> Partner(r, true) in MergePartners(p, size)
  {
    PartnersShape(r, size);
    PartnersShape(p, size);
    ReceivesMembers(r, size, 0, Partner(p, false));
    ReceivesMembers(p, size, 0, Partner(r, true));
    if Partner(p, false) in MergePartners(r, size) {
      assert Partner(p, false) in Receives(r, size, 0);
      var i :| ChildRound(r, i) && p == r + Pow2(i);
      ChildLowExp(r, i);
      assert Parent(p) == r;
      assert MergePartners(p, size)[|MergePartners(p, size)| - 1] == Partner(r, true);
    }
    if Partner(r, true) in MergePartners(p, size) {
      assert Partner(r, true) in SendPart(p);
      ParentChildRound(p);
    }
  }

  /** Every rank's parent is smaller, so following the sends from any rank reaches rank 0. */
  lemma ParentBelow(r: nat)
    requires r > 0
    ensures Parent(r) < r
  {
  }
}
