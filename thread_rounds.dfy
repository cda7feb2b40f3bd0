/**
 * The round loop of thread_func, run by all threads. The barrier between the
 * phases is modelled by sequencing: a round is every thread's even phase, in
 * id order, then every thread's odd phase, in id order.
 */
module ThreadRounds {
  import opened Transposition
  import opened Partition
  import opened Phases
  import opened OddEvenTransposition

  /** Every thread's accesses lie in an array of len cells. */
  predicate AllFit(threads: seq<ThreadArgs>, len: nat)
  {
    forall i :: 0 <= i < |threads| ==> ThreadFits(threads[i], len)
  }

  /** Phase `first` (0: even, 1: odd) of threads 0 .. k - 1, in id order. */
  function ThreadsPhase(s: seq<nat>, threads: seq<ThreadArgs>, first: nat, k: nat): (r: seq<nat>)
    requires first <= 1 && AllFit(threads, |s|) && k <= |threads|
    ensures |r| == |s|
  {
    if k == 0 then s
    else
      var t := threads[k - 1];
      Sweep(ThreadsPhase(s, threads, first, k - 1), t.offset + first, t.offset + t.size)
  }

  /** Phase `first` of threads 0 .. k - 1 is that of threads 0 .. k - 2, then thread k - 1's. */
  lemma ThreadsPhaseStep(s: seq<nat>, threads: seq<ThreadArgs>, first: nat, k: nat)
    requires first <= 1 && AllFit(threads, |s|) && 0 < k <= |threads|
    ensures Fits(threads[k - 1].offset + first, threads[k - 1].offset + threads[k - 1].size, |s|)
    ensures ThreadsPhase(s, threads, first, k) ==
      Sweep(ThreadsPhase(s, threads, first, k - 1), threads[k - 1].offset + first, threads[k - 1].offset + threads[k - 1].size)
  {
  }

  /** Phase `first` of every thread. */
  function AllThreadsPhase(s: seq<nat>, threads: seq<ThreadArgs>, first: nat): (r: seq<nat>)
    requires first <= 1 && AllFit(threads, |s|)
    ensures |r| == |s|
  {
    ThreadsPhase(s, threads, first, |threads|)
  }

  /** One round: all even phases, barrier, all odd phases, barrier. */
  function Round(s: seq<nat>, threads: seq<ThreadArgs>): (r: seq<nat>)
    requires AllFit(threads, |s|)
    ensures |r| == |s|
  {
    AllThreadsPhase(AllThreadsPhase(s, threads, 0), threads, 1)
  }

  function Rounds(s: seq<nat>, threads: seq<ThreadArgs>, m: nat): (r: seq<nat>)
    requires AllFit(threads, |s|)
    ensures |r| == |s|
  {
    if m == 0 then s else Round(Rounds(s, threads, m - 1), threads)
  }

  /** One thread's even (first = 0) or odd (first = 1) phase on the shared array. */
  method ThreadPhase(a: array<nat>, t: ThreadArgs, first: nat)
    requires first <= 1 && ThreadFits(t, a.Length)
    modifies a
    ensures a[..] == Sweep(old(a[..]), t.offset + first, t.offset + t.size)
  {
    if first == 0 {
      EvenPhase(t.size, a, t.offset);
    } else {
      OddPhase(t.size, a, t.offset);
    }
  }

  /** Every thread's phase `first`, one thread after the other. */
  method RunPhase(a: array<nat>, threads: seq<ThreadArgs>, first: nat)
    requires first <= 1 && AllFit(threads, a.Length)
    modifies a
    ensures a[..] == AllThreadsPhase(old(a[..]), threads, first)
  {
    var i := 0;
    while i < |threads|
      invariant 0 <= i <= |threads|
      invariant a[..] == ThreadsPhase(old(a[..]), threads, first, i)
    {
      ThreadsPhaseStep(old(a[..]), threads, first, i + 1);
      ThreadPhase(a, threads[i], first);
      i := i + 1;
    }
  }

  /**
   * thread_func's loop for all threads together: ARRAY_SIZE rounds, the
   * array's own length, of (even phase, barrier, odd phase, barrier).
   */
  method RunRounds(a: array<nat>, threads: seq<ThreadArgs>)
    requires AllFit(threads, a.Length)
    modifies a
    ensures a[..] == Rounds(old(a[..]), threads, a.Length)
    ensures multiset(a[..]) == multiset(old(a[..]))
  {
    var i := 0;
    while i < a.Length
      invariant 0 <= i <= a.Length
      invariant a[..] == Rounds(old(a[..]), threads, i)
    {
      RunPhase(a, threads, 0);
      RunPhase(a, threads, 1);
      i := i + 1;
    }
    RoundsPermute(old(a[..]), threads, a.Length);
  }

  /** The threads' phases only ever exchange values. */
  lemma {:induction false} ThreadsPhasePermutes(s: seq<nat>, threads: seq<ThreadArgs>, first: nat, k: nat)
    requires first <= 1 && AllFit(threads, |s|) && k <= |threads|
    ensures multiset(ThreadsPhase(s, threads, first, k)) == multiset(s)
  {
    if k > 0 {
      calc {
        multiset(ThreadsPhase(s, threads, first, k));
        { ThreadPhasePermutes(s, threads, first, k); }
        multiset(ThreadsPhase(s, threads, first, k - 1));
        { ThreadsPhasePermutes(s, threads, first, k - 1); }
        multiset(s);
      }
    }
  }

  /** Thread k - 1's phase only exchanges values. */
  lemma ThreadPhasePermutes(s: seq<nat>, threads: seq<ThreadArgs>, first: nat, k: nat)
    requires first <= 1 && AllFit(threads, |s|) && 0 < k <= |threads|
    ensures multiset(ThreadsPhase(s, threads, first, k)) == multiset(ThreadsPhase(s, threads, first, k - 1))
  {
    ThreadsPhaseStep(s, threads, first, k);
    SweepPermutes(ThreadsPhase(s, threads, first, k - 1),
      threads[k - 1].offset + first, threads[k - 1].offset + threads[k - 1].size);
  }

  /** Any number of rounds keeps the multiset of the shared array. */
  lemma {:induction false} RoundsPermute(s: seq<nat>, threads: seq<ThreadArgs>, m: nat)
    requires AllFit(threads, |s|)
    ensures multiset(Rounds(s, threads, m)) == multiset(s)
  {
    if m > 0 {
      RoundsPermute(s, threads, m - 1);
      RoundPermutes(Rounds(s, threads, m - 1), threads);
    }
  }

  /** One round keeps the multiset of the shared array. */
  lemma RoundPermutes(u: seq<nat>, threads: seq<ThreadArgs>)
    requires AllFit(threads, |u|)
    ensures multiset(Round(u, threads)) == multiset(u)
  {
    var v := AllThreadsPhase(u, threads, 0);
    ThreadsPhasePermutes(u, threads, 0, |threads|);
    ThreadsPhasePermutes(v, threads, 1, |threads|);
  }

  /** Rounds over an already sorted array change nothing. */
  lemma {:induction false} ThreadsPhaseSortedUnchanged(s: seq<nat>, threads: seq<ThreadArgs>, first: nat, k: nat)
    requires first <= 1 && AllFit(threads, |s|) && k <= |threads| && Sorted(s)
    ensures ThreadsPhase(s, threads, first, k) == s
  {
    if k > 0 {
      var t := threads[k - 1];
      ThreadsPhaseSortedUnchanged(s, threads, first, k - 1);
      SweepUnchanged(s, t.offset + first, t.offset + t.size);
    }
  }

  lemma {:induction false} RoundsSortedUnchanged(s: seq<nat>, threads: seq<ThreadArgs>, m: nat)
    requires AllFit(threads, |s|) && Sorted(s)
    ensures Rounds(s, threads, m) == s
  {
    if m > 0 {
      RoundsSortedUnchanged(s, threads, m - 1);
      ThreadsPhaseSortedUnchanged(s, threads, 0, |threads|);
      ThreadsPhaseSortedUnchanged(s, threads, 1, |threads|);
    }
  }

  /** The partition main builds satisfies the bounds the rounds need. */
  lemma PartitionFits(args: seq<ThreadArgs>, n: nat, w: nat)
    requires IsPartition(args, n, w)
    ensures AllFit(args, n)
  {
    PartitionTiles(args, n, w);
    forall i | 0 <= i < |args|
      ensures ThreadFits(args[i], n)
    {
      assert args[i] in args;
    }
  }

  /**
   * The shape of main's partition when the block size is even, stated
   * without multiplication: blocks start at even offsets, each non-last
   * block reaches the next one's first cell, and the last one reaches n - 1.
   */
  predicate EvenTiling(args: seq<ThreadArgs>, n: nat)
  {
    |args| >= 1 && args[0].offset == 0 &&
    args[|args| - 1].offset + args[|args| - 1].size == n - 1 &&
    (forall i :: 0 <= i < |args| ==> args[i].offset % 2 == 0 && args[i].offset <= args[|args| - 1].offset) &&
    forall i :: 0 <= i < |args| - 1 ==> args[i].size >= 0 && args[i].offset + args[i].size == args[i + 1].offset
  }

  /** Where a block starts relative to the last block. */
  lemma LastBlockStart(args: seq<ThreadArgs>, n: nat, w: nat, k: nat)
    requires IsPartition(args, n, w) && k < w
    ensures args[k].offset <= args[w - 1].offset
  {
    if k < w - 1 {
      BlocksInOrder(args, n, w, k, w - 1);
      assert args[k] == ArgsFor(n, w, k);
    }
  }

  lemma PartitionEvenTiling(args: seq<ThreadArgs>, n: nat, w: nat)
    requires IsPartition(args, n, w) && (n / w) % 2 == 0
    ensures EvenTiling(args, n)
  {
    PartitionTiles(args, n, w);
    forall i | 0 <= i < w
      ensures args[i].offset % 2 == 0 && args[i].offset <= args[w - 1].offset
    {
      EvenOffset(args, n, w, i);
      LastBlockStart(args, n, w, i);
    }
    forall i | 0 <= i < w - 1
      ensures args[i].size >= 0
    {
      assert args[i] == ArgsFor(n, w, i);
    }
  }

  /**
   * With an even block size, the first k threads' phase together is one
   * pass over the pairs of the right parity below block k's first cell.
   */
  lemma {:induction false} EvenBlockPrefix(s: seq<nat>, args: seq<ThreadArgs>, first: nat, k: nat)
    requires EvenTiling(args, |s|) && AllFit(args, |s|) && |s| >= 1 && first <= 1
    requires k < |args| && args[|args| - 1].size >= 0
    ensures Fits(first, args[k].offset + first, |s|)
    ensures ThreadsPhase(s, args, first, k) == Sweep(s, first, args[k].offset + first)
  {
    if k > 0 {
      EvenBlockPrefix(s, args, first, k - 1);
      TilingNext(args, |s|, k);
      EvenBlockNext(s, args, first, k);
    }
  }

  /** The inductive step of EvenBlockPrefix: block k - 1's phase reaches block k's first cell. */
  lemma EvenBlockNext(s: seq<nat>, args: seq<ThreadArgs>, first: nat, k: nat)
    requires AllFit(args, |s|) && first <= 1 && 0 < k < |args|
    requires args[k - 1].offset % 2 == 0 && args[k - 1].size >= 0
    requires args[k - 1].offset + args[k - 1].size == args[k].offset
    requires args[k].offset % 2 == 0 && args[k].offset < |s|
    requires Fits(first, args[k - 1].offset + first, |s|)
    requires ThreadsPhase(s, args, first, k - 1) == Sweep(s, first, args[k - 1].offset + first)
    ensures Fits(first, args[k].offset + first, |s|)
    ensures ThreadsPhase(s, args, first, k) == Sweep(s, first, args[k].offset + first)
  {
    ThreadsPhaseStep(s, args, first, k);
    NextBlockPass(s, first, args[k - 1].offset, args[k - 1].size, args[k].offset,
      ThreadsPhase(s, args, first, k - 1), ThreadsPhase(s, args, first, k));
  }

  /** Block k - 1 of an even tiling ends where block k starts, inside the array. */
  lemma TilingNext(args: seq<ThreadArgs>, n: nat, k: nat)
    requires EvenTiling(args, n) && 0 < k < |args| && args[|args| - 1].size >= 0
    ensures args[k - 1].offset % 2 == 0 && args[k - 1].size >= 0
    ensures args[k - 1].offset + args[k - 1].size == args[k].offset
    ensures args[k].offset % 2 == 0 && args[k].offset < n
  {
    assert args[k].offset <= args[|args| - 1].offset;
  }

  /**
   * A pass below an even block start followed by that block's phase is a
   * pass below the next block's start.
   */
  lemma NextBlockPass(s: seq<nat>, first: nat, start: nat, size: int, next: nat, before: seq<nat>, after: seq<nat>)
    requires first <= 1 && start % 2 == 0 && size >= 0 && start + size == next && next % 2 == 0
    requires next + first <= |s| == |before|
    requires Fits(first, start + first, |s|) && before == Sweep(s, first, start + first)
    requires Fits(start + first, start + size, |s|) && after == Sweep(before, start + first, start + size)
    ensures Fits(first, next + first, |s|)
    ensures after == Sweep(s, first, next + first)
  {
    SweepConcat(s, first, start + first, start + size);
    if first == 1 && start + size > 0 {
      SweepExtend(s, 1, start + size);
    }
  }

  /**
   * The last block's phase after the pass below its start completes one
   * pass over the whole array.
   */
  lemma LastBlockPass(s: seq<nat>, first: nat, start: nat, size: int)
    requires first <= 1 && start % 2 == 0 && size >= 0 && start + size == |s| - 1
    ensures Fits(first, start + first, |s|) && Fits(start + first, start + size, |s|)
    ensures Fits(first, |s| - 1, |s|)
    ensures Sweep(Sweep(s, first, start + first), start + first, start + size) == Sweep(s, first, |s| - 1)
  {
    SweepConcat(s, first, start + first, start + size);
  }

  /** The same for every tiling of the array by even blocks. */
  lemma EvenTilingPhase(s: seq<nat>, args: seq<ThreadArgs>, first: nat)
    requires EvenTiling(args, |s|) && AllFit(args, |s|) && |s| >= 1 && first <= 1
    requires args[|args| - 1].size >= 0
    ensures Fits(first, |s| - 1, |s|)
    ensures AllThreadsPhase(s, args, first) == Sweep(s, first, |s| - 1)
  {
    var i := |args| - 1;
    EvenBlockPrefix(s, args, first, i);
    LastBlockPass(s, first, args[i].offset, args[i].size);
  }

  /**
   * With an even block size all threads' phase `first` together equals one
   * global phase over the whole array: no pair is compared twice and the
   * parities agree.
   */
  lemma EvenBlockPhase(s: seq<nat>, args: seq<ThreadArgs>, n: nat, w: nat, first: nat)
    requires IsPartition(args, n, w) && (n / w) % 2 == 0 && |s| == n && first <= 1
    ensures AllFit(args, n)
    ensures AllThreadsPhase(s, args, first) == Sweep(s, first, n - 1)
  {
    PartitionFits(args, n, w);
    if n == 0 {
      NoCellsPhase(s, args, n, first);
    } else {
      PartitionEvenTiling(args, n, w);
      LastBlockSize(args, n, w);
      EvenTilingPhase(s, args, first);
    }
  }

  /** Over an empty array every phase is trivially the global one. */
  lemma NoCellsPhase(s: seq<nat>, args: seq<ThreadArgs>, n: nat, first: nat)
    requires |s| == n == 0 && first <= 1 && AllFit(args, n)
    ensures AllThreadsPhase(s, args, first) == Sweep(s, first, n - 1)
  {
    assert |AllThreadsPhase(s, args, first)| == 0;
  }

  /** The last block of a partition of a non-empty array has a size of at least 0. */
  lemma LastBlockSize(args: seq<ThreadArgs>, n: nat, w: nat)
    requires IsPartition(args, n, w) && n >= 1
    ensures args[w - 1].size >= 0
  {
    assert args[w - 1] == ArgsFor(n, w, w - 1);
    DivBounds(n, w);
  }

  /** With an even block size a threaded round is the textbook global round. */
  lemma EvenBlockRound(s: seq<nat>, args: seq<ThreadArgs>, n: nat, w: nat)
    requires IsPartition(args, n, w) && (n / w) % 2 == 0 && |s| == n
    ensures AllFit(args, n)
    ensures Round(s, args) == GlobalRound(s)
  {
    EvenBlockPhase(s, args, n, w, 0);
    EvenBlockPhase(AllThreadsPhase(s, args, 0), args, n, w, 1);
  }

  lemma {:induction false} EvenBlockRounds(s: seq<nat>, args: seq<ThreadArgs>, n: nat, w: nat, m: nat)
    requires IsPartition(args, n, w) && (n / w) % 2 == 0 && |s| == n
    ensures AllFit(args, n)
    ensures Rounds(s, args, m) == GlobalRounds(s, m)
  {
    PartitionFits(args, n, w);
    if m > 0 {
      EvenBlockRounds(s, args, n, w, m - 1);
      EvenBlockRound(Rounds(s, args, m - 1), args, n, w);
    }
  }

  /**
   * With an even block size, ARRAY_SIZE rounds of the threads sort the
   * shared array: the result is non-decreasing and a permutation of the input.
   */
  lemma EvenBlockSorts(s: seq<nat>, args: seq<ThreadArgs>, n: nat, w: nat)
    requires IsPartition(args, n, w) && (n / w) % 2 == 0 && |s| == n
    ensures AllFit(args, n)
    ensures Sorted(Rounds(s, args, n))
    ensures multiset(Rounds(s, args, n)) == multiset(s)
  {
    EvenBlockRounds(s, args, n, w, n);
    GlobalRoundsSort(s);
  }
}
