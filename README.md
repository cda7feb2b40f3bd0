# Parallel odd-even transposition sort

A model of the two parallel odd-even transposition sorts in the repository.
`oddEvenSort/oddEvenSort.c` sorts 10000 values and `pThreads/pThreads.c`
sorts 100. Both use `NUM_THREADS` = 4 POSIX threads on one shared array of
`unsigned int`.

`main` splits the array into blocks. Thread i gets the pointer
`p_array + i * BLOCK_SIZE` and a `size`. That size is `BLOCK_SIZE`, except
for the last thread, which gets `BLOCK_SIZE + ARRAY_SIZE % NUM_THREADS - 1`.
Every thread runs `ARRAY_SIZE` rounds, and each round is:

1. `even_phase(size, p)`: compare-and-switch `(p[i], p[i + 1])` for even `i < size`;
2. a barrier;
3. `odd_phase(size, p)`: the same for odd `i < size`;
4. another barrier.

`compare_and_switch` swaps two cells through a temporary when the left value
is greater.

The model is organised as follows:

- **Transposition** gives the value-level meaning of a compare-and-switch (`Switch`). It also defines one pass over pairs `lo, lo + 2, …` below `hi` (`Sweep`) and proves facts about passes.
- **Phases** contains `compare_and_switch`, `even_phase` and `odd_phase` as methods on an `array<nat>`. A thread's `p_array` is an offset into the one shared array. Each method is proved to compute `Sweep`.
- **Partition** models main's partition loop (`MakeThreadArgs`) and its arithmetic:
  - the blocks tile the array;
  - the last thread reaches exactly cell n − 1;
  - every adjacent pair is compared in every round;
  - with an even block size, same-phase pairs of different threads are disjoint.
- **ThreadRounds** models the round loop of all threads. The barrier is modelled by sequencing: in a round, every thread's even phase runs in id order, then every thread's odd phase in id order. With an even block size, one round equals the textbook global round.
- **OddEvenTransposition** proves the textbook result: n rounds over n cells sort the cells. The proof uses threshold counts, in the manner of the 0-1 principle.
- **OddEvenSort** and **PThreads** fix each program's constants and model its `main`.
  - For oddEvenSort.c, whose block size is 2500 (even), the array is proved sorted and a permutation of the input after `ARRAY_SIZE` rounds.
  - For pThreads.c, whose block size is 25 (odd), the model proves the values are kept, a sorted array is left unchanged, and the even-phase pairs of threads 0 and 1 share cell 25.
- **Race** models two concurrent `compare_and_switch` calls, one C statement per step. When the two pairs are disjoint, every interleaving gives the sequential result. The lemmas name the left pair A's; the mirrored case is the same statement with the threads swapped. That justifies the sequencing in ThreadRounds. When the pairs share a cell, as in pThreads.c, a value can be lost (see Findings).

The last thread's size, `BLOCK_SIZE + ARRAY_SIZE % NUM_THREADS - 1`
(oddEvenSort.c:138), can look like an off-by-one that leaves the last
cell uncovered. It is not. A
thread's `size` is the exclusive bound of the pair index `i`, and pair
`(i, i + 1)` reaches cell `i + 1`. So the last thread's phases reach cell
`offset + size` = n − 1 and no further. `Partition.PartitionCovers` proves
that every pair `(j, j + 1)` with `0 <= j < n - 1` is compared, and no other.
`Partition.PartitionTiles` proves that nothing is accessed out of bounds.

`pThreads/pThreads.c` defines `thread_func` twice: an empty body at line 28
and the real loop at line 67. Only the loop at line 67 is modelled.
`compare_and_switch`, `even_phase` and `odd_phase` are the same in both files
(pThreads/pThreads.c:40-65). They are modelled once and cited from
oddEvenSort.c below.

## Model

The arithmetic and counting steps of the sortedness proof (`OddEvenTransposition.TargetStep`, `PairOfPhase`, `HighCellStuck`) model no source line and have no row.

| member | source | states |
|---|---|---|
| Transposition.Switch | oddEvenSort/oddEvenSort.c:57-66 | after the call the first cell holds the minimum and the second the maximum of the two values; every other cell is unchanged; an ordered pair is left as it was |
| Transposition.Sweep | oddEvenSort/oddEvenSort.c:74-94 | the value of one phase loop: compare-and-switch of the pairs (lo, lo + 1), (lo + 2, lo + 3), … below hi, in increasing order; keeps the length |
| Transposition.SwitchPermutes | oddEvenSort/oddEvenSort.c:57-66 | a compare-and-switch only exchanges values: the multiset is unchanged |
| Transposition.SweepFrame | oddEvenSort/oddEvenSort.c:74-94 | a phase keeps the length and changes no cell outside lo .. hi |
| Transposition.SweepPermutes | oddEvenSort/oddEvenSort.c:74-94 | a phase is a permutation of the array |
| Transposition.ComparedInRange | oddEvenSort/oddEvenSort.c:76-79 | every pair a fitting phase compares lies inside the array |
| Transposition.SweepPairs | oddEvenSort/oddEvenSort.c:74-94 | each compared pair ends up holding the minimum and the maximum of its original values; the pairs of one phase do not interfere |
| Transposition.SweepOrders | oddEvenSort/oddEvenSort.c:74-94 | after a phase every pair it compared is in order |
| Transposition.SweepUnchanged | oddEvenSort/oddEvenSort.c:74-94 | a phase whose pairs are all in order changes nothing |
| Transposition.SweepConcat | oddEvenSort/oddEvenSort.c:76-79 | a pass stopped at an index of its parity and resumed there is one pass |
| Transposition.SweepExtend | oddEvenSort/oddEvenSort.c:76-79 | raising the bound by one past a pair of the other parity compares nothing more |
| Phases.CompareAndSwitch | oddEvenSort/oddEvenSort.c:57-66 | the in-place swap through temp computes Switch: the pair is ordered, holds min and max, other cells and the multiset are unchanged, and an ordered pair is untouched |
| Phases.Phase | oddEvenSort/oddEvenSort.c:74-94 | the loop `for (i = first; i < iEnd; i += 2)` over the thread's block, run on the shared index base + i, computes Sweep from base + first below base + iEnd |
| Phases.EvenPhase | oddEvenSort/oddEvenSort.c:74-80 | even_phase computes Sweep; afterwards every even pair of the block is ordered; cells outside p[0 .. iEnd] are unchanged; the multiset is kept |
| Phases.OddPhase | oddEvenSort/oddEvenSort.c:88-94 | odd_phase: the same for the odd pairs; p[0] is never touched |
| Phases.PhaseFacts | oddEvenSort/oddEvenSort.c:74-94 | the values of a thread's phase: its pairs are ordered, nothing outside its block changes, the multiset is kept |
| Partition.MakeThreadArgs | oddEvenSort/oddEvenSort.c:127-139 | the loop builds thread i's arguments (id i, offset i * BLOCK_SIZE, size BLOCK_SIZE, or BLOCK_SIZE + ARRAY_SIZE % NUM_THREADS - 1 for the last thread); block 0 starts at 0; each block's reach is the next block's start; the last reaches n - 1; all accesses are in bounds |
| Partition.ArgsFor | oddEvenSort/oddEvenSort.c:129-138 | thread i's arguments as main's loop writes them: id i, offset i * (n / w), size n / w, or n / w + n % w - 1 for the last thread; the phases of each thread but the last end at the next block's start, (i + 1) * (n / w), and the last thread's end at n - 1 |
| Partition.PartitionTiles | oddEvenSort/oddEvenSort.c:127-139 | the same tiling facts for any partition main builds, for every n and w >= 1 |
| Partition.PairCovered | oddEvenSort/oddEvenSort.c:127-139 | pair (j, j + 1) with j < n - 1 is compared by thread BlockIndex, which is block j / BLOCK_SIZE or the last block, and so by some thread |
| Partition.PartitionCovers | oddEvenSort/oddEvenSort.c:127-139 | a round compares pair (j, j + 1) exactly when 0 <= j < n - 1: the last cell is covered and nothing beyond the array is |
| Partition.EvenOffset | oddEvenSort/oddEvenSort.c:130 | with an even block size every block starts at an even index |
| Partition.BlocksInOrder | oddEvenSort/oddEvenSort.c:127-139 | a block's reach is at most the start of any later block |
| Partition.EvenBlocksDisjoint | oddEvenSort/oddEvenSort.c:127-139 | with an even block size a thread's local parity is the global parity, and same-phase pairs of different threads share no cell |
| Partition.OddBlocksShareCell | pThreads/pThreads.c:95-106 | with an odd block size and at least three threads, thread 0's last even pair and thread 1's first even pair share cell BLOCK_SIZE |
| ThreadRounds.ThreadPhase | oddEvenSort/oddEvenSort.c:104-106 | the even_phase or odd_phase call of one thread's round, on its block of the shared array, computes Sweep over that block |
| ThreadRounds.ThreadsPhase | oddEvenSort/oddEvenSort.c:104-106 | phase `first` (0 even, 1 odd) of threads 0 .. k - 1, run in id order: thread k - 1's Sweep over its block after the first k - 1 threads'; keeps the length |
| ThreadRounds.AllThreadsPhase | oddEvenSort/oddEvenSort.c:104-106 | the same phase of every thread, in id order, between two barriers; keeps the length |
| ThreadRounds.Round | oddEvenSort/oddEvenSort.c:102-108 | one iteration of thread_func's loop over all threads: every thread's even phase in id order, then every thread's odd phase in id order; keeps the length |
| ThreadRounds.Rounds | oddEvenSort/oddEvenSort.c:102-108 | m rounds, one after the other; keeps the length |
| ThreadRounds.RunPhase | oddEvenSort/oddEvenSort.c:102-106 | all threads' phase, one thread after the other in id order, computes AllThreadsPhase |
| ThreadRounds.RunRounds | oddEvenSort/oddEvenSort.c:102-108 | ARRAY_SIZE rounds of (even phase, barrier, odd phase, barrier) compute Rounds and keep the multiset |
| ThreadRounds.ThreadPhasePermutes | oddEvenSort/oddEvenSort.c:104-106 | one more thread's phase only exchanges values |
| ThreadRounds.ThreadsPhasePermutes | oddEvenSort/oddEvenSort.c:102-106 | the phases of threads 0 .. k - 1 permute the array |
| ThreadRounds.RoundPermutes | oddEvenSort/oddEvenSort.c:102-108 | one round of all threads permutes the array |
| ThreadRounds.RoundsPermute | oddEvenSort/oddEvenSort.c:102-108 | any number of rounds permutes the array |
| ThreadRounds.ThreadsPhaseSortedUnchanged | oddEvenSort/oddEvenSort.c:102-106 | the threads' phases leave a sorted array unchanged |
| ThreadRounds.RoundsSortedUnchanged | oddEvenSort/oddEvenSort.c:102-108 | any number of rounds leaves a sorted array unchanged |
| ThreadRounds.PartitionFits | oddEvenSort/oddEvenSort.c:127-139 | every thread of main's partition stays inside the array |
| ThreadRounds.LastBlockStart | oddEvenSort/oddEvenSort.c:130 | no block starts after the last block |
| ThreadRounds.PartitionEvenTiling | oddEvenSort/oddEvenSort.c:127-139 | with an even block size the partition tiles the array with even-aligned blocks |
| ThreadRounds.TilingNext | oddEvenSort/oddEvenSort.c:127-139 | in an even tiling block k - 1 is even-aligned, ends where block k starts, and block k starts inside the array |
| ThreadRounds.LastBlockSize | oddEvenSort/oddEvenSort.c:131-138 | for a non-empty array the last thread's size BLOCK_SIZE + ARRAY_SIZE % NUM_THREADS - 1 is not negative |
| ThreadRounds.EvenBlockPrefix | oddEvenSort/oddEvenSort.c:102-106 | with even blocks, threads 0 .. k - 1 together make one pass below block k's start |
| ThreadRounds.EvenBlockNext | oddEvenSort/oddEvenSort.c:102-106 | thread k - 1's phase extends the pass of threads 0 .. k - 2 to block k's start |
| ThreadRounds.NextBlockPass | oddEvenSort/oddEvenSort.c:102-106 | a pass up to an even block start followed by that block's phase is a pass up to the next block's start |
| ThreadRounds.LastBlockPass | oddEvenSort/oddEvenSort.c:102-106 | the last block's phase completes the pass over the whole array |
| ThreadRounds.EvenTilingPhase | oddEvenSort/oddEvenSort.c:102-106 | with an even tiling all threads' phase is the global phase over the array |
| ThreadRounds.EvenBlockPhase | oddEvenSort/oddEvenSort.c:102-106 | with an even block size all threads' even (odd) phase equals one global even (odd) phase |
| ThreadRounds.NoCellsPhase | oddEvenSort/oddEvenSort.c:102-106 | over an empty array the threads' phase is the global phase |
| ThreadRounds.EvenBlockRound | oddEvenSort/oddEvenSort.c:102-108 | with an even block size one threaded round equals the textbook global round |
| ThreadRounds.EvenBlockRounds | oddEvenSort/oddEvenSort.c:102-108 | the same for any number of rounds |
| ThreadRounds.EvenBlockSorts | oddEvenSort/oddEvenSort.c:102-108 | with an even block size, ARRAY_SIZE rounds leave the array sorted and a permutation of the input |
| OddEvenTransposition.SweepAbove | oddEvenSort/oddEvenSort.c:74-94 | a phase never lowers the number of values >= x in any suffix and keeps the total |
| OddEvenTransposition.SwitchAbove | oddEvenSort/oddEvenSort.c:57-66 | a compare-and-switch never lowers the number of values >= x in a suffix, and changes it only for the suffix starting at the pair's second cell |
| OddEvenTransposition.HighValueMoves | oddEvenSort/oddEvenSort.c:57-66 | a high value before a low one at a compared pair moves right |
| OddEvenTransposition.PhaseProgressAt | oddEvenSort/oddEvenSort.c:102-108 | one phase moves the j-th high value as far right as the bound for the next phase requires |
| OddEvenTransposition.PhaseProgress | oddEvenSort/oddEvenSort.c:102-108 | one phase moves every high value as far right as the progress bound requires |
| OddEvenTransposition.RoundProgress | oddEvenSort/oddEvenSort.c:102-108 | an even phase followed by an odd phase advances the bound by two phases |
| OddEvenTransposition.RoundsProgress | oddEvenSort/oddEvenSort.c:102-108 | after r rounds the progress bound for 2 r phases holds |
| OddEvenTransposition.HighCellsLast | oddEvenSort/oddEvenSort.c:102-108 | once the bound for 2 n phases holds, the cells holding values >= x are exactly the last ones |
| OddEvenTransposition.GlobalRoundsSort | oddEvenSort/oddEvenSort.c:102-108 | n global rounds over n cells sort them and keep the multiset |
| OddEvenTransposition.GlobalRoundPermutes | oddEvenSort/oddEvenSort.c:102-108 | one global round keeps the multiset |
| OddEvenTransposition.GlobalRoundsPermute | oddEvenSort/oddEvenSort.c:102-108 | any number of global rounds keeps the multiset |
| OddEvenSort.Layout | oddEvenSort/oddEvenSort.c:127-139 | the four threads get (offset, size) (0, 2500), (2500, 2500), (5000, 2500), (7500, 2499); the block is even; the last thread reaches cell 9999 |
| OddEvenSort.PhasesDisjoint | oddEvenSort/oddEvenSort.c:127-139 | between two barriers no two threads touch the same cell |
| OddEvenSort.SortShared | oddEvenSort/oddEvenSort.c:127-147 | after the threads are joined the array is sorted and holds the same values |
| PThreads.Layout | pThreads/pThreads.c:95-106 | the four threads get (offset, size) (0, 25), (25, 25), (50, 25), (75, 24); the block is odd; the last thread reaches cell 99 |
| PThreads.SharedCell | pThreads/pThreads.c:95-106 | in the even phase thread 0 compares (24, 25) and thread 1 compares (25, 26) |
| PThreads.SortShared | pThreads/pThreads.c:95-113 | with each phase's threads run in id order, the array keeps its values and a sorted array is left unchanged |
| Race.Step | pThreads/pThreads.c:40-49 | one statement of compare_and_switch touches only its own two cells |
| Race.Run | pThreads/pThreads.c:40-49 | the array and both threads' program counters and temps after a schedule that interleaves the statements of two compare_and_switch calls, one statement per step; keeps the length |
| Race.StepIsolated | oddEvenSort/oddEvenSort.c:57-66 | a step of one thread keeps the other thread's cells and progress as they were |
| Race.RunIsolated | oddEvenSort/oddEvenSort.c:102-106 | for disjoint pairs every schedule keeps each thread's cells equal to what it would hold running alone |
| Race.BothDone | oddEvenSort/oddEvenSort.c:57-66 | two finished isolated calls have performed exactly the two switches |
| Race.SwitchesPermute | oddEvenSort/oddEvenSort.c:57-66 | two compare-and-switches one after the other keep the multiset |
| Race.DisjointRunIsSequential | oddEvenSort/oddEvenSort.c:102-106 | for disjoint pairs (A's pair left of B's: i + 1 < j; the mirrored case is the same lemma with the threads' roles and the schedule's booleans swapped) every interleaving in which both calls finish gives the result of the two calls in either order, and keeps the multiset |
| Race.RacedRun | pThreads/pThreads.c:51-57 | the lost-update schedule on cells 24 .. 26 holding 5, 3, 1 ends with both calls finished and 3, 1, 3 in those cells |
| Race.SharedCellLosesValue | pThreads/pThreads.c:51-57 | after that schedule the array holds one copy of 5 fewer |
| Race.SequentialKeepsValue | pThreads/pThreads.c:40-49 | the same two calls run one after the other keep the multiset, and the two orders give different arrays |

## Left out

- Thread creation, `pthread_join`, `pthread_exit` and the barrier are not modelled as concurrency. The barrier becomes sequencing: each phase's threads run one after the other in id order.
- For oddEvenSort.c, `Partition.EvenBlocksDisjoint` and `Race.DisjointRunIsSequential` justify the sequencing. For pThreads.c the threads' pairs overlap, so the sequential model is one of the possible executions (see Findings).
- `rand`, `srand` and `time` are replaced by an arbitrary input array.
- `printf` and `print_array` are left out.
- `clock_gettime` and the elapsed-time computation are left out.
- The `ROUND` macro in pThreads.c is left out: it is never used.
- The function pointer `thread_func_ptr` is left out.
- The empty duplicate `thread_func` at pThreads/pThreads.c:28 is left out.
- `unsigned int` cells are modelled as `nat`. Compare-and-switch only compares and moves values, so no arithmetic on cell values can wrap.
- Index arithmetic is unbounded. For these array sizes every index fits in an `int`.
- PThreads.SortShared: sortedness after `ARRAY_SIZE` rounds is not proved for pThreads.c's odd block size. Only the multiset and the sorted-input-unchanged property are stated. With odd blocks, a thread's even phase is not a global even phase, so the reduction to the textbook algorithm does not apply.
- Race.Step: the test `*a > *b` is one atomic step, and each of the three assignments is another. A real thread may be interrupted between the two loads of the test, and between the load of `*b` and the store to `*a` in `*a = *b` (pThreads.c:46). The lost update shown needs no such interruption.
- Race.Run: the race model covers two calls of `compare_and_switch`, not two whole concurrent phases. Phases are related to it through the pairwise disjointness of their pairs.

## Findings

| source | as written | input that shows it | evidently intended | confidence | as-written member | corrected member |
|---|---|---|---|---|---|---|
| pThreads/pThreads.c:95-106 | `iBlockSize` = 100 / 4 = 25 is odd. Between the same two barriers, thread 0's even phase compares (24, 25) and thread 1's even phase compares (25, 26), so both threads read and write cell 25 concurrently. | cells 24, 25, 26 hold 5, 3, 1; thread 1 tests and loads temp = 3, thread 0 runs its whole call, thread 1 stores: the cells hold 3, 1, 3 and the 5 is lost | same-phase pairs of different threads share no cell, as with oddEvenSort.c's even block size 2500, so every interleaving equals a sequential run | not executed | Race.SharedCellLosesValue | Race.DisjointRunIsSequential |

The corrected half is the even-block partition. `Partition.EvenBlocksDisjoint`
proves that with an even block size no two threads share a cell in a phase.
`Race.DisjointRunIsSequential` proves that disjoint calls give the sequential
result under every interleaving. `ThreadRounds.EvenBlockSorts` then proves that
the sequenced rounds sort the array.
