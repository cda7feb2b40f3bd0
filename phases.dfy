/**
 * The in-place primitives both programs share: compare_and_switch and the
 * even and odd phases of one thread. A thread's `p_array` pointer is the
 * offset `base` into the one shared array; `iEnd` is its `size`.
 */
module Phases {
  import opened Transposition

  /** Swap a[i] and a[j] through a temporary when the left value is greater. */
  method CompareAndSwitch(a: array<nat>, i: nat, j: nat)
    requires i < a.Length && j < a.Length
    modifies a
    ensures a[..] == Switch(old(a[..]), i, j)
    ensures a[i] <= a[j]
    ensures a[i] == Min(old(a[i]), old(a[j])) && a[j] == Max(old(a[i]), old(a[j]))
    ensures forall k :: 0 <= k < a.Length && k != i && k != j ==> a[k] == old(a[k])
    ensures multiset(a[..]) == multiset(old(a[..]))
    ensures old(a[i]) <= old(a[j]) ==> a[..] == old(a[..])
  {
    if a[i] > a[j] {
      var temp := a[i];
      a[i] := a[j];
      a[j] := temp;
    }
    SwitchPermutes(old(a[..]), i, j);
  }

  /**
   * The thread's pairs (base + i, base + i + 1) for i = first, first + 2, ...
   * below iEnd, in increasing order; `first` is 0 for the even phase and 1
   * for the odd phase. The loop runs over j = base + i, the position of
   * p[i] in the shared array.
   */
  method Phase(iEnd: int, a: array<nat>, base: nat, first: nat)
    requires Fits(base + first, base + iEnd, a.Length)
    modifies a
    ensures a[..] == Sweep(old(a[..]), base + first, base + iEnd)
  {
    var j, hi := base + first, base + iEnd;
    while j < hi
      invariant Fits(j, hi, a.Length)
      invariant Sweep(a[..], j, hi) == Sweep(old(a[..]), base + first, hi)
      decreases hi - j
    {
      SweepUnfold(a[..], j, hi);
      CompareAndSwitch(a, j, j + 1);
      j := j + 2;
    }
    SweepEmpty(a[..], j, hi);
  }

  /**
   * even_phase: compare p[i] with p[i + 1] for every even i < iEnd. Afterwards
   * those pairs are in order, nothing outside p[0 .. iEnd] has changed and the
   * array holds the same values.
   */
  method EvenPhase(iEnd: int, a: array<nat>, base: nat)
    requires Fits(base, base + iEnd, a.Length)
    modifies a
    ensures a[..] == Sweep(old(a[..]), base, base + iEnd)
    ensures PairsOrdered(a[..], base, 0, iEnd)
    ensures SameOutside(old(a[..]), a[..], base, base + iEnd)
    ensures multiset(a[..]) == multiset(old(a[..]))
  {
    Phase(iEnd, a, base, 0);
    PhaseFacts(old(a[..]), base, 0, iEnd);
  }

  /**
   * odd_phase: compare p[i] with p[i + 1] for every odd i < iEnd, with the
   * same ordering, frame and permutation guarantees.
   */
  method OddPhase(iEnd: int, a: array<nat>, base: nat)
    requires Fits(base + 1, base + iEnd, a.Length)
    modifies a
    ensures a[..] == Sweep(old(a[..]), base + 1, base + iEnd)
    ensures PairsOrdered(a[..], base, 1, iEnd)
    ensures SameOutside(old(a[..]), a[..], base + 1, base + iEnd)
    ensures multiset(a[..]) == multiset(old(a[..]))
  {
    Phase(iEnd, a, base, 1);
    PhaseFacts(old(a[..]), base, 1, iEnd);
  }

  /**
   * What a thread's phase does to the values: its pairs end up ordered,
   * nothing outside its block changes and the values are only permuted.
   */
  lemma PhaseFacts(s: seq<nat>, base: nat, first: nat, iEnd: int)
    requires first <= 1 && Fits(base + first, base + iEnd, |s|)
    ensures PairsOrdered(Sweep(s, base + first, base + iEnd), base, first, iEnd)
    ensures SameOutside(s, Sweep(s, base + first, base + iEnd), base + first, base + iEnd)
    ensures multiset(Sweep(s, base + first, base + iEnd)) == multiset(s)
  {
    SweepPermutes(s, base + first, base + iEnd);
    SweepOrders(s, base + first, base + iEnd);
    SweepFrame(s, base + first, base + iEnd);
    forall k | PhasePair(base, first, iEnd, k)
      ensures Compared(base + first, base + iEnd, k)
    {
    }
  }
}
