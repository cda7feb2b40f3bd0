/**
 * oddEvenSort.c: four threads sort a shared array of 10000 cells, each
 * running ARRAY_SIZE rounds of (even phase, barrier, odd phase, barrier) on
 * its own block. The block size 2500 is even, so in every phase the
 * threads' pairs are disjoint and together form one global phase.
 */
module OddEvenSort {
  import opened Transposition
  import opened Partition
  import opened OddEvenTransposition
  import opened ThreadRounds

  const NUM_THREADS: nat := 4
  const ARRAY_SIZE: nat := 10000
  const BLOCK_SIZE: nat := ARRAY_SIZE / NUM_THREADS

  /** The thread arguments main hands to the four threads. */
  lemma Layout(args: seq<ThreadArgs>)
    requires IsPartition(args, ARRAY_SIZE, NUM_THREADS)
    ensures args == [ThreadArgs(0, 0, 2500), ThreadArgs(1, 2500, 2500),
                     ThreadArgs(2, 5000, 2500), ThreadArgs(3, 7500, 2499)]
    ensures BLOCK_SIZE % 2 == 0
    ensures args[3].offset + args[3].size == ARRAY_SIZE - 1
  {
    assert args[0] == ArgsFor(ARRAY_SIZE, NUM_THREADS, 0);
    assert args[1] == ArgsFor(ARRAY_SIZE, NUM_THREADS, 1);
    assert args[2] == ArgsFor(ARRAY_SIZE, NUM_THREADS, 2);
    assert args[3] == ArgsFor(ARRAY_SIZE, NUM_THREADS, 3);
  }

  /**
   * No two threads touch the same cell in the same phase, so running the
   * threads of a phase one after the other in id order is exact.
   */
  lemma PhasesDisjoint(args: seq<ThreadArgs>, first: nat)
    requires IsPartition(args, ARRAY_SIZE, NUM_THREADS) && first <= 1
    ensures forall i1, i2, j1, j2 ::
      (0 <= i1 < i2 < NUM_THREADS &&
       PhasePair(args[i1].offset, first, args[i1].size, j1) &&
       PhasePair(args[i2].offset, first, args[i2].size, j2)) ==> j1 + 1 < j2
  {
    EvenBlocksDisjoint(args, ARRAY_SIZE, NUM_THREADS, first);
  }

  /**
   * main from the partition loop to the joins: build thread_args, run the
   * threads' ARRAY_SIZE rounds. The array ends sorted and holds the same
   * values as before.
   */
  method SortShared(a: array<nat>) returns (args: seq<ThreadArgs>)
    requires a.Length == ARRAY_SIZE
    modifies a
    ensures IsPartition(args, ARRAY_SIZE, NUM_THREADS)
    ensures AllFit(args, a.Length) && a[..] == Rounds(old(a[..]), args, ARRAY_SIZE)
    ensures Sorted(a[..])
    ensures multiset(a[..]) == multiset(old(a[..]))
  {
    args := MakeThreadArgs(ARRAY_SIZE, NUM_THREADS);
    PartitionFits(args, ARRAY_SIZE, NUM_THREADS);
    RunRounds(a, args);
    EvenBlockSorts(old(a[..]), args, ARRAY_SIZE, NUM_THREADS);
  }
}
