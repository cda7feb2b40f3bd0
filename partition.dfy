/**
 * The block partition `main` computes before it starts the threads: thread i
 * gets the pointer p_array + i * BLOCK_SIZE, modelled as an offset, and the
 * size BLOCK_SIZE, except the last thread, whose size is
 * BLOCK_SIZE + ARRAY_SIZE % NUM_THREADS - 1.
 *
 * A thread's `size` is the end index of its phases, not a count of cells:
 * its phases compare pairs (k, k + 1) with k < size, so together they reach
 * cell offset + size, the first cell of the next block.
 */
module Partition {
  import opened Transposition

  /** thread_args_T: the thread's id, its block's first index and its size. */
  datatype ThreadArgs = ThreadArgs(id: nat, offset: nat, size: int)

  /**
   * The arguments main's loop writes for thread i of w, for an array of n
   * cells. A thread's phases end where the next block starts; the last
   * thread's end at cell n - 1.
   */
  function ArgsFor(n: nat, w: nat, i: nat): (r: ThreadArgs)
    requires i < w
    ensures r.id == i
    ensures r.offset + r.size == if i < w - 1 then (i + 1) * (n / w) else n - 1
  {
    var blockSize := n / w;
    BlockArithmetic(n, w, i);
    ThreadArgs(i, i * blockSize, if i < w - 1 then blockSize else blockSize + n % w - 1)
  }

  /** args is the whole thread_args table main builds for n cells and w threads. */
  predicate IsPartition(args: seq<ThreadArgs>, n: nat, w: nat)
  {
    w >= 1 && |args| == w && forall i :: 0 <= i < w ==> args[i] == ArgsFor(n, w, i)
  }

  /**
   * Every access of a thread's two phases lies in an array of len cells:
   * together its phases reach cell offset + size when size > 0.
   */
  predicate ThreadFits(t: ThreadArgs, len: nat)
  {
    t.size <= 0 || t.offset + t.size < len
  }

  /** Thread t compares pair (j, j + 1) in its even or in its odd phase. */
  predicate Reaches(t: ThreadArgs, j: int)
  {
    PhasePair(t.offset, 0, t.size, j) || PhasePair(t.offset, 1, t.size, j)
  }

  /** Some thread compares pair (j, j + 1) during a round. */
  predicate Covered(args: seq<ThreadArgs>, j: int)
  {
    exists i :: 0 <= i < |args| && Reaches(args[i], j)
  }

  /** main's loop over the threads, filling in thread_args. */
  method MakeThreadArgs(n: nat, w: nat) returns (args: seq<ThreadArgs>)
    requires w >= 1
    ensures IsPartition(args, n, w)
    ensures args[0].offset == 0
    ensures forall i :: 0 <= i < w - 1 ==> args[i].offset + args[i].size == args[i + 1].offset
    ensures args[w - 1].offset + args[w - 1].size == n - 1
    ensures forall t :: t in args ==> ThreadFits(t, n)
  {
    var blockSize := n / w;
    args := [];
    var i := 0;
    while i < w
      invariant 0 <= i <= w && |args| == i
      invariant forall k :: 0 <= k < i ==> args[k] == ArgsFor(n, w, k)
    {
      var size;
      if i < w - 1 {
        size := blockSize;
      } else {
        // the last thread's phases end at cell n - 1
        size := blockSize + n % w - 1;
      }
      args := args + [ThreadArgs(i, i * blockSize, size)];
      i := i + 1;
    }
    PartitionTiles(args, n, w);
  }

  lemma Distribute(x: int, y: int, b: int)
    ensures (x + y) * b == x * b + y * b
  {
  }

  lemma MulAssoc(x: int, y: int, z: int)
    ensures x * (y * z) == (x * y) * z
  {
  }

  lemma MulMonotone(x: nat, y: nat, b: nat)
    requires x <= y
    ensures x * b <= y * b
  {
    Distribute(x, y - x, b);
  }

  /** Facts about the block size that the tiling arguments rest on. */
  lemma BlockArithmetic(n: nat, w: nat, i: nat)
    requires 1 <= w && i < w
    ensures n == w * (n / w) + n % w
    ensures (i + 1) * (n / w) == i * (n / w) + n / w
    ensures i < w - 1 ==> (i + 1) * (n / w) <= (w - 1) * (n / w)
    ensures (w - 1) * (n / w) + n / w == w * (n / w)
  {
    var b := n / w;
    Distribute(i, 1, b);
    Distribute(w - 1, 1, b);
    if i < w - 1 {
      MulMonotone(i + 1, w - 1, b);
    }
  }

  /**
   * The blocks tile the array: the first starts at 0, each non-last block's
   * reach is the next block's first cell, the last block reaches exactly
   * the final cell n - 1, and no access is out of bounds.
   */
  lemma PartitionTiles(args: seq<ThreadArgs>, n: nat, w: nat)
    requires IsPartition(args, n, w)
    ensures args[0].offset == 0
    ensures forall i :: 0 <= i < w - 1 ==> args[i].offset + args[i].size == args[i + 1].offset
    ensures args[w - 1].offset + args[w - 1].size == n - 1
    ensures forall i :: 0 <= i < w ==> args[i].offset + args[i].size <= n - 1 || args[i].size <= 0
    ensures forall t :: t in args ==> ThreadFits(t, n)
  {
    var b := n / w;
    assert args[0] == ArgsFor(n, w, 0);
    forall i | 0 <= i < w - 1
      ensures args[i].offset + args[i].size == args[i + 1].offset
    {
      assert args[i] == ArgsFor(n, w, i) && args[i + 1] == ArgsFor(n, w, i + 1);
      BlockArithmetic(n, w, i);
    }
    assert args[w - 1] == ArgsFor(n, w, w - 1);
    BlockArithmetic(n, w, w - 1);
    forall i | 0 <= i < w
      ensures args[i].offset + args[i].size <= n - 1 || args[i].size <= 0
    {
      assert args[i] == ArgsFor(n, w, i);
      BlockArithmetic(n, w, i);
      if i < w - 1 && b > 0 {
        assert args[i].offset + args[i].size == (i + 1) * b <= (w - 1) * b;
      }
    }
    forall t | t in args
      ensures ThreadFits(t, n)
    {
      var i :| 0 <= i < w && args[i] == t;
    }
  }

  lemma DivBounds(j: nat, b: nat)
    requires b > 0
    ensures (j / b) * b <= j < (j / b) * b + b
  {
  }

  /** The thread whose block holds pair (j, j + 1): block j / b, or the last one. */
  function BlockIndex(n: nat, w: nat, j: nat): (i: nat)
    requires w >= 1
    ensures i < w
  {
    var b := n / w;
    if b > 0 && j / b < w - 1 then j / b else w - 1
  }

  lemma BlockIndexBounds(n: nat, w: nat, j: nat)
    requires w >= 1 && j < n - 1
    ensures ArgsFor(n, w, BlockIndex(n, w, j)).offset <= j
    ensures j < ArgsFor(n, w, BlockIndex(n, w, j)).offset + ArgsFor(n, w, BlockIndex(n, w, j)).size
  {
    var b := n / w;
    var i := BlockIndex(n, w, j);
    var t := ArgsFor(n, w, i);
    assert t.offset == i * b;
    if b == 0 {
      assert t.offset == 0 && t.offset + t.size == n - 1;
    } else if j / b < w - 1 {
      DivBounds(j, b);
      BlockArithmetic(n, w, i);
      assert t.offset + t.size == i * b + b;
    } else {
      DivBounds(j, b);
      MulMonotone(w - 1, j / b, b);
      assert t.offset + t.size == n - 1;
    }
  }

  /** Pair (j, j + 1) is compared by the thread BlockIndex(n, w, j). */
  lemma PairCovered(args: seq<ThreadArgs>, n: nat, w: nat, j: nat)
    requires IsPartition(args, n, w) && j < n - 1
    ensures Reaches(args[BlockIndex(n, w, j)], j)
    ensures Covered(args, j)
  {
    var i := BlockIndex(n, w, j);
    BlockIndexBounds(n, w, j);
    var t := args[i];
    assert t == ArgsFor(n, w, i);
    assert t.offset <= j < t.offset + t.size;
    if (j - t.offset) % 2 == 0 {
      assert PhasePair(t.offset, 0, t.size, j);
    } else {
      assert PhasePair(t.offset, 1, t.size, j);
    }
    assert Reaches(args[i], j);
  }

  /**
   * One round compares every adjacent pair of the array and nothing else: a
   * pair (j, j + 1) is compared by some thread in some phase exactly when
   * 0 <= j < n - 1. In particular the last cell is not left out.
   */
  lemma PartitionCovers(args: seq<ThreadArgs>, n: nat, w: nat)
    requires IsPartition(args, n, w)
    ensures forall j :: 0 <= j < n - 1 <==> Covered(args, j)
  {
    PartitionTiles(args, n, w);
    forall j | 0 <= j < n - 1
      ensures Covered(args, j)
    {
      PairCovered(args, n, w, j);
    }
    forall j | Covered(args, j)
      ensures 0 <= j < n - 1
    {
      var i :| 0 <= i < |args| && Reaches(args[i], j);
    }
  }

  /** With an even block size every block starts at an even index. */
  lemma EvenOffset(args: seq<ThreadArgs>, n: nat, w: nat, i: nat)
    requires IsPartition(args, n, w) && (n / w) % 2 == 0 && i < w
    ensures args[i].offset % 2 == 0
  {
    var b := n / w;
    assert args[i] == ArgsFor(n, w, i);
    assert b == 2 * (b / 2);
    MulAssoc(i, 2, b / 2);
    assert i * b == 2 * (i * (b / 2));
  }

  /** A block's reach is at most the first cell of any later block. */
  lemma BlocksInOrder(args: seq<ThreadArgs>, n: nat, w: nat, i1: nat, i2: nat)
    requires IsPartition(args, n, w) && i1 < i2 < w
    ensures args[i1].offset + args[i1].size <= args[i2].offset
  {
    var b := n / w;
    assert args[i1] == ArgsFor(n, w, i1) && args[i2] == ArgsFor(n, w, i2);
    BlockArithmetic(n, w, i1);
    MulMonotone(i1 + 1, i2, b);
  }

  /**
   * With an even block size the threads' pairs in one phase are disjoint
   * (different threads never touch the same cell in the same phase) and a
   * thread's local parity is the global parity of the pair index.
   */
  lemma EvenBlocksDisjoint(args: seq<ThreadArgs>, n: nat, w: nat, first: nat)
    requires IsPartition(args, n, w) && (n / w) % 2 == 0 && first <= 1
    ensures forall i, j :: 0 <= i < w && PhasePair(args[i].offset, first, args[i].size, j) ==> j % 2 == first
    ensures forall i1, i2, j1, j2 ::
      (0 <= i1 < i2 < w &&
       PhasePair(args[i1].offset, first, args[i1].size, j1) &&
       PhasePair(args[i2].offset, first, args[i2].size, j2)) ==> j1 + 1 < j2
  {
    EvenBlocksParity(args, n, w, first);
    EvenBlocksApart(args, n, w, first);
  }

  lemma EvenBlocksParity(args: seq<ThreadArgs>, n: nat, w: nat, first: nat)
    requires IsPartition(args, n, w) && (n / w) % 2 == 0 && first <= 1
    ensures forall i, j :: 0 <= i < w && PhasePair(args[i].offset, first, args[i].size, j) ==> j % 2 == first
  {
    forall i, j | 0 <= i < w && PhasePair(args[i].offset, first, args[i].size, j)
      ensures j % 2 == first
    {
      EvenOffset(args, n, w, i);
      PairParity(args[i].offset, first, args[i].size, j);
    }
  }

  /** In an even-aligned block, a phase's pairs have the phase's global parity. */
  lemma PairParity(o: nat, first: nat, size: int, j: int)
    requires o % 2 == 0 && first <= 1 && PhasePair(o, first, size, j)
    ensures j % 2 == first
  {
  }

  lemma EvenBlocksApart(args: seq<ThreadArgs>, n: nat, w: nat, first: nat)
    requires IsPartition(args, n, w) && (n / w) % 2 == 0 && first <= 1
    ensures forall i1, i2, j1, j2 ::
      (0 <= i1 < i2 < w &&
       PhasePair(args[i1].offset, first, args[i1].size, j1) &&
       PhasePair(args[i2].offset, first, args[i2].size, j2)) ==> j1 + 1 < j2
  {
    forall i1, i2, j1, j2 |
      0 <= i1 < i2 < w &&
      PhasePair(args[i1].offset, first, args[i1].size, j1) &&
      PhasePair(args[i2].offset, first, args[i2].size, j2)
      ensures j1 + 1 < j2
    {
      EvenOffset(args, n, w, i1);
      EvenOffset(args, n, w, i2);
      BlocksInOrder(args, n, w, i1, i2);
      PairsApart(args[i1].offset, args[i1].size, args[i2].offset, args[i2].size, first, j1, j2);
    }
  }

  /**
   * Two even-aligned blocks, the first ending at or before the second's
   * start: their pairs of the same phase are at least one cell apart.
   */
  lemma PairsApart(o1: nat, size1: int, o2: nat, size2: int, first: nat, j1: int, j2: int)
    requires o1 % 2 == 0 && o2 % 2 == 0 && o1 + size1 <= o2 && first <= 1
    requires PhasePair(o1, first, size1, j1) && PhasePair(o2, first, size2, j2)
    ensures j1 + 1 < j2
  {
  }

  /**
   * With an odd block size and at least three threads, thread 0's last
   * even-phase pair (b - 1, b) and thread 1's first even-phase pair (b, b + 1)
   * share cell b, the first cell of thread 1's block.
   */
  lemma OddBlocksShareCell(args: seq<ThreadArgs>, n: nat, w: nat)
    requires IsPartition(args, n, w) && (n / w) % 2 == 1 && w >= 3
    ensures PhasePair(args[0].offset, 0, args[0].size, n / w - 1)
    ensures PhasePair(args[1].offset, 0, args[1].size, n / w)
    ensures args[1].offset == n / w
  {
    assert args[0] == ArgsFor(n, w, 0) && args[1] == ArgsFor(n, w, 1);
  }
}
