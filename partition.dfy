/** Static round-robin partitioning of the job list: worker `rank` out of `size`
    takes the job indices `range(rank, n_pars, size)` (kinetic_energy.py:50). */
module Partition {
  import Arith

  /** Python's `range(start, stop, step)` for a positive step and a non-negative start. */
  function StrideRange(start: nat, stop: nat, step: nat): seq<nat>
    requires step >= 1
    decreases if start < stop then stop - start else 0
  {
    if start >= stop then [] else [start] + StrideRange(start + step, stop, step)
  }

  /** Subtracting one step keeps the remainder. */
  lemma RemainderStep(a: nat, k: nat)
    requires k >= 1
    ensures a % k == 0 <==> a == 0 || (a >= k && (a - k) % k == 0)
  {
    if a >= k {
      Arith.DivModUnique(a - k, k, a / k - 1, a % k);
    } else if a > 0 {
      Arith.DivModUnique(a, k, 0, a);
    }
  }

  /** The j-th index handed out is start + j*step: the indices come in increasing
      order, one stride apart. */
  lemma {:induction false} StrideRangeAt(start: nat, stop: nat, step: nat, j: nat)
    requires step >= 1 && j < |StrideRange(start, stop, step)|
    ensures StrideRange(start, stop, step)[j] == start + j * step
    decreases if start < stop then stop - start else 0
  {
    if j > 0 {
      StrideRangeAt(start + step, stop, step, j - 1);
      assert (j - 1) * step + step == j * step;
    }
  }

  /** Consequence of StrideRangeAt: strictly increasing. */
  lemma StrideRangeIncreasing(start: nat, stop: nat, step: nat, i: nat, j: nat)
    requires step >= 1 && i < j < |StrideRange(start, stop, step)|
    ensures StrideRange(start, stop, step)[i] < StrideRange(start, stop, step)[j]
  {
    StrideRangeAt(start, stop, step, i);
    StrideRangeAt(start, stop, step, j);
    assert j * step == i * step + (j - i) * step;
    Arith.MulAtLeast(step, j - i);
  }

  /** Membership in the range is exactly Python's: below stop, at or above start,
      and a whole number of steps away from start. */
  lemma {:induction false} StrideRangeMember(start: nat, stop: nat, step: nat, x: nat)
    requires step >= 1
    ensures x in StrideRange(start, stop, step) <==> start <= x < stop && (x - start) % step == 0
    decreases if start < stop then stop - start else 0
  {
    if start < stop {
      StrideRangeMember(start + step, stop, step, x);
      if x >= start {
        RemainderStep(x - start, step);
      }
    }
  }

  /** The number of indices a worker processes: ceil((stop - start) / step), and
      none at all when start >= stop (a rank with no job). */
  lemma {:induction false} StrideRangeLength(start: nat, stop: nat, step: nat)
    requires step >= 1
    ensures |StrideRange(start, stop, step)| == if start >= stop then 0 else (stop - start + step - 1) / step
    decreases if start < stop then stop - start else 0
  {
    if start < stop {
      StrideRangeLength(start + step, stop, step);
      if start + step >= stop {
        Arith.DivModUnique(stop - start + step - 1, step, 1, stop - start - 1);
      } else {
        var a := stop - start - 1;
        Arith.DivModUnique(a + step, step, a / step + 1, a % step);
      }
    }
  }

  /** For a worker rank below size, index i < n belongs to that worker exactly
      when i mod size equals the rank. */
  lemma OwnerOfIndex(n: nat, size: nat, rank: nat, i: nat)
    requires size >= 1 && rank < size && i < n
    ensures i in StrideRange(rank, n, size) <==> i % size == rank
  {
    StrideRangeMember(rank, n, size, i);
    if i % size == rank {
      Arith.DivModUnique(i - rank, size, i / size, 0);
    }
    if rank <= i && (i - rank) % size == 0 {
      Arith.DivModUnique(i, size, (i - rank) / size, rank);
    }
  }

  /** Every job index below n is processed by exactly one of the ranks 0..size-1. */
  lemma ExactlyOneOwner(n: nat, size: nat, i: nat)
    requires size >= 1 && i < n
    ensures exists rank :: 0 <= rank < size && i in StrideRange(rank, n, size)
    ensures forall r1, r2 ::
              (0 <= r1 < size && 0 <= r2 < size &&
               i in StrideRange(r1, n, size) && i in StrideRange(r2, n, size)) ==> r1 == r2
  {
    OwnerOfIndex(n, size, i % size, i);
    forall r | 0 <= r < size
      ensures i in StrideRange(r, n, size) <==> r == i % size
    {
      OwnerOfIndex(n, size, r, i);
    }
  }

  /** Two distinct workers never share a job index. */
  lemma WorkersDisjoint(n: nat, size: nat, r1: nat, r2: nat)
    requires size >= 1 && r1 < size && r2 < size && r1 != r2
    ensures forall i :: i in StrideRange(r1, n, size) ==> i !in StrideRange(r2, n, size)
  {
    forall i | i in StrideRange(r1, n, size)
      ensures i !in StrideRange(r2, n, size)
    {
      StrideRangeMember(r1, n, size, i);
      OwnerOfIndex(n, size, r1, i);
      OwnerOfIndex(n, size, r2, i);
    }
  }

  /** Taken together, the workers' index sets are exactly 0..n-1: nothing is
      skipped and nothing outside the job list is touched. */
  lemma WorkersCover(n: nat, size: nat)
    requires size >= 1
    ensures forall i: nat :: i in Covered(n, size) <==> i < n
  {
    forall i: nat | i in Covered(n, size) ensures i < n {
      var r :| 0 <= r < size && i in StrideRange(r, n, size);
      StrideRangeMember(r, n, size, i);
    }
    forall i: nat | i < n ensures i in Covered(n, size) {
      ExactlyOneOwner(n, size, i);
    }
  }

  /** The union of the index sets of ranks 0..size-1. */
  function Covered(n: nat, size: nat): set<nat>
    requires size >= 1
  {
    set r, i | 0 <= r < size && i in StrideRange(r, n, size) :: i
  }
}
