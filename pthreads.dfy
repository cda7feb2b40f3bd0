/**
 * pThreads.c: the same algorithm on 100 cells. Its block size 25 is odd:
 * thread i's even phase compares the pairs starting at 25 i, 25 i + 2, ...,
 * which for odd i have the other global parity, and the last even-phase
 * pair of one block, (25 i + 24, 25 i + 25), shares its right cell with the
 * first even-phase pair of the next block.
 */
module PThreads {
  import opened Transposition
  import opened Partition
  import opened OddEvenTransposition
  import opened ThreadRounds

  const NUM_THREADS: nat := 4
  const ARRAY_SIZE: nat := 100
  const BLOCK_SIZE: nat := ARRAY_SIZE / NUM_THREADS

  /** The thread arguments main hands to the four threads. */
  lemma Layout(args: seq<ThreadArgs>)
    requires IsPartition(args, ARRAY_SIZE, NUM_THREADS)
    ensures args == [ThreadArgs(0, 0, 25), ThreadArgs(1, 25, 25),
                     ThreadArgs(2, 50, 25), ThreadArgs(3, 75, 24)]
    ensures BLOCK_SIZE % 2 == 1
    ensures args[3].offset + args[3].size == ARRAY_SIZE - 1
  {
    assert args[0] == ArgsFor(ARRAY_SIZE, NUM_THREADS, 0);
    assert args[1] == ArgsFor(ARRAY_SIZE, NUM_THREADS, 1);
    assert args[2] == ArgsFor(ARRAY_SIZE, NUM_THREADS, 2);
    assert args[3] == ArgsFor(ARRAY_SIZE, NUM_THREADS, 3);
  }

  /**
   * In the even phase thread 0 compares (24, 25) and thread 1 compares
   * (25, 26): both threads access cell 25 between the same two barriers.
   */
  lemma SharedCell(args: seq<ThreadArgs>)
    requires IsPartition(args, ARRAY_SIZE, NUM_THREADS)
    ensures PhasePair(args[0].offset, 0, args[0].size, 24)
    ensures PhasePair(args[1].offset, 0, args[1].size, 25)
  {
    OddBlocksShareCell(args, ARRAY_SIZE, NUM_THREADS);
  }

  /**
   * main from the partition loop to the joins, with each phase's threads
   * taken one after the other in id order: the array holds the same values,
   * and an already sorted array is left as it was.
   */
  method SortShared(a: array<nat>) returns (args: seq<ThreadArgs>)
    requires a.Length == ARRAY_SIZE
    modifies a
    ensures IsPartition(args, ARRAY_SIZE, NUM_THREADS)
    ensures AllFit(args, a.Length) && a[..] == Rounds(old(a[..]), args, ARRAY_SIZE)
    ensures multiset(a[..]) == multiset(old(a[..]))
    ensures Sorted(old(a[..])) ==> a[..] == old(a[..])
  {
    args := MakeThreadArgs(ARRAY_SIZE, NUM_THREADS);
    PartitionFits(args, ARRAY_SIZE, NUM_THREADS);
    RunRounds(a, args);
    if Sorted(old(a[..])) {
      RoundsSortedUnchanged(old(a[..]), args, ARRAY_SIZE);
    }
  }
}
