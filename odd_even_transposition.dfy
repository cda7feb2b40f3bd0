/**
 * The textbook odd-even transposition sort over a whole sequence, used as
 * the reference the threaded rounds are compared with, and the proof that
 * |s| rounds (2 |s| phases) sort any sequence s.
 *
 * The proof fixes a threshold x and counts, for every suffix s[m..], the
 * cells holding a value >= x ("high" cells). A phase never lowers such a
 * count, and the j-th high cell from the right stands at or beyond
 * min(n - j, t - 2 j) after t phases; after 2 n phases every high cell
 * is to the right of every low one, for every x, which is sortedness.
 */
module OddEvenTransposition {
  import opened Transposition

  /** One round over the whole sequence: every even pair, then every odd pair. */
  function GlobalRound(s: seq<nat>): (r: seq<nat>)
    ensures |r| == |s|
  {
    Sweep(Sweep(s, 0, |s| - 1), 1, |s| - 1)
  }

  function GlobalRounds(s: seq<nat>, m: nat): (r: seq<nat>)
    ensures |r| == |s|
  {
    if m == 0 then s else GlobalRound(GlobalRounds(s, m - 1))
  }

  predicate Sorted(s: seq<nat>)
  {
    forall i, j :: 0 <= i < j < |s| ==> s[i] <= s[j]
  }

  /** Number of values >= x in t. */
  function CountAtLeast(t: seq<nat>, x: nat): (c: nat)
    ensures c <= |t|
  {
    if t == [] then 0 else (if t[0] >= x then 1 else 0) + CountAtLeast(t[1..], x)
  }

  /** Number of values >= x in the suffix s[m..]. */
  function Above(s: seq<nat>, x: nat, m: nat): (c: nat)
    requires m <= |s|
    ensures c <= |s| - m
  {
    CountAtLeast(s[m..], x)
  }

  lemma AboveStep(s: seq<nat>, x: nat, m: nat)
    requires m < |s|
    ensures Above(s, x, m) == (if s[m] >= x then 1 else 0) + Above(s, x, m + 1)
  {
    assert s[m..][1..] == s[m + 1..];
  }

  /**
   * A compare-and-switch of (i, i + 1) never lowers the number of high values
   * in a suffix, and changes it only for the suffix that starts at i + 1.
   */
  lemma {:induction false} SwitchAbove(s: seq<nat>, x: nat, i: nat, m: nat)
    requires i + 1 < |s| && m <= |s|
    ensures Above(Switch(s, i, i + 1), x, m) >= Above(s, x, m)
    ensures m != i + 1 ==> Above(Switch(s, i, i + 1), x, m) == Above(s, x, m)
    decreases |s| - m
  {
    var s' := Switch(s, i, i + 1);
    if m > i + 1 {
      assert s'[m..] == s[m..];
    } else {
      AboveStep(s, x, m);
      AboveStep(s', x, m);
      SwitchAbove(s, x, i, m + 1);
      if m == i {
        AboveStep(s, x, m + 1);
        AboveStep(s', x, m + 1);
        SwitchAbove(s, x, i, m + 2);
      }
    }
  }

  /** The same for a whole phase; the total number of high values is kept. */
  lemma {:induction false} SweepAbove(s: seq<nat>, lo: nat, hi: int, x: nat)
    requires Fits(lo, hi, |s|)
    ensures forall m :: 0 <= m <= |s| ==> Above(Sweep(s, lo, hi), x, m) >= Above(s, x, m)
    ensures Above(Sweep(s, lo, hi), x, 0) == Above(s, x, 0)
    decreases hi - lo
  {
    if lo < hi {
      var s' := Switch(s, lo, lo + 1);
      SweepAbove(s', lo + 2, hi, x);
      forall m | 0 <= m <= |s|
        ensures Above(Sweep(s, lo, hi), x, m) >= Above(s, x, m)
      {
        SwitchAbove(s, x, lo, m);
      }
      SwitchAbove(s, x, lo, 0);
    }
  }

  /**
   * After t phases the j-th high cell from the right stands at index
   * Target(n, t, j) or beyond: min(n - j, t - 2 j), and at least 0.
   */
  function Target(n: nat, t: nat, j: nat): (m: nat)
    requires j <= n
    ensures m <= n - j
  {
    var q := t - 2 * j;
    if n - j <= q then n - j else if q < 0 then 0 else q
  }

  /** The progress bound after t phases, for the threshold x. */
  predicate Progress(s: seq<nat>, x: nat, t: nat)
  {
    forall j :: 1 <= j <= Above(s, x, 0) ==> Above(s, x, Target(|s|, t, j)) >= j
  }

  lemma ProgressInit(s: seq<nat>, x: nat)
    ensures Progress(s, x, 0)
  {
    forall j | 1 <= j <= Above(s, x, 0)
      ensures Above(s, x, Target(|s|, 0, j)) >= j
    {
      assert Target(|s|, 0, j) == 0;
    }
  }

  /**
   * A high value followed by a low one at a compared pair moves right: the
   * suffix from q + 1 gains it on top of what the suffix from q + 2 had.
   */
  lemma HighValueMoves(s: seq<nat>, x: nat, p: nat, q: nat)
    requires Fits(p, |s| - 1, |s|) && Compared(p, |s| - 1, q)
    requires s[q] >= x && s[q + 1] < x
    ensures Above(Sweep(s, p, |s| - 1), x, q + 1) >= 1 + Above(s, x, q + 2)
  {
    var s' := Sweep(s, p, |s| - 1);
    SweepPairs(s, p, |s| - 1);
    assert s'[q + 1] >= x;
    AboveStep(s', x, q + 1);
    SweepAbove(s, p, |s| - 1, x);
  }

  /**
   * Phase number t (even pairs when t is even, odd pairs when t is odd)
   * moves forward the j-th high value when the bound says it must move.
   */
  lemma PhaseProgressAt(s: seq<nat>, x: nat, t: nat, j: nat)
    requires Progress(s, x, t) && 1 <= j <= Above(s, x, 0)
    ensures Fits(t % 2, |s| - 1, |s|)
    ensures Above(Sweep(s, t % 2, |s| - 1), x, Target(|s|, t + 1, j)) >= j
  {
    var n, p := |s|, t % 2;
    SweepAbove(s, p, n - 1, x);
    TargetStep(n, t, j);
    var q := t - 2 * j;
    if Target(n, t + 1, j) != Target(n, t, j) && Above(s, x, q + 1) < j {
      if j > 1 {
        assert Above(s, x, Target(n, t, j - 1)) >= j - 1;
      }
      HighCellStuck(s, x, q, j);
      PairOfPhase(n, t, j);
      HighValueMoves(s, x, p, q);
    }
  }

  /**
   * The bound for the j-th high value either stays put from phase t to
   * phase t + 1, or it is t - 2 j and moves by one, with the bound for the
   * (j - 1)-th two cells further right.
   */
  lemma TargetStep(n: nat, t: nat, j: nat)
    requires 1 <= j <= n
    ensures Target(n, t + 1, j) == Target(n, t, j) ||
      (0 <= t - 2 * j < n - j && Target(n, t, j) == t - 2 * j && Target(n, t + 1, j) == t - 2 * j + 1 &&
       (j > 1 ==> Target(n, t, j - 1) == t - 2 * j + 2))
  {
  }

  /** The cell t - 2 j, when it is below n - 1, starts a pair of phase t. */
  lemma PairOfPhase(n: nat, t: nat, j: nat)
    requires 0 <= t - 2 * j < n - 1
    ensures Compared(t % 2, n - 1, t - 2 * j)
  {
    EvenShift(t - 2 * j, j);
  }

  /** Adding an even number keeps the parity. */
  lemma {:induction false} EvenShift(q: int, j: nat)
    ensures (q + 2 * j) % 2 == q % 2
  {
    if j > 0 {
      EvenShift(q, j - 1);
      assert q + 2 * j == q + 2 * (j - 1) + 2;
    }
  }

  /**
   * When the suffix from q holds j high values and the one from q + 1 fewer,
   * cell q is high; when the suffix from q + 2 holds j - 1 of them, cell
   * q + 1 is low.
   */
  lemma HighCellStuck(s: seq<nat>, x: nat, q: nat, j: nat)
    requires q + 1 < |s| && 1 <= j
    requires Above(s, x, q) >= j && Above(s, x, q + 1) < j
    requires j > 1 ==> Above(s, x, q + 2) >= j - 1
    ensures s[q] >= x && s[q + 1] < x && Above(s, x, q + 2) >= j - 1
  {
    AboveStep(s, x, q);
    AboveStep(s, x, q + 1);
  }

  /** One phase keeps the bound, advanced by one phase. */
  lemma PhaseProgress(s: seq<nat>, x: nat, t: nat)
    requires Progress(s, x, t)
    ensures Fits(t % 2, |s| - 1, |s|)
    ensures Progress(Sweep(s, t % 2, |s| - 1), x, t + 1)
  {
    var s' := Sweep(s, t % 2, |s| - 1);
    var t' := t + 1;
    SweepAbove(s, t % 2, |s| - 1, x);
    forall j | 1 <= j <= Above(s', x, 0)
      ensures Above(s', x, Target(|s'|, t', j)) >= j
    {
      PhaseProgressAt(s, x, t, j);
    }
  }

  /** After r rounds, i.e. 2 r phases, the bound for t = 2 r holds. */
  lemma {:induction false} RoundsProgress(s: seq<nat>, x: nat, r: nat)
    ensures Progress(GlobalRounds(s, r), x, 2 * r)
  {
    if r == 0 {
      GlobalRoundsStep(s, r);
      ProgressInit(s, x);
    } else {
      RoundsProgress(s, x, r - 1);
      NextRoundProgress(s, x, r);
    }
  }

  /** Round r, i.e. phases 2 r - 2 and 2 r - 1, advances the bound by two phases. */
  lemma NextRoundProgress(s: seq<nat>, x: nat, r: nat)
    requires r > 0 && Progress(GlobalRounds(s, r - 1), x, 2 * (r - 1))
    ensures Progress(GlobalRounds(s, r), x, 2 * r)
  {
    GlobalRoundsStep(s, r);
    RoundProgress(GlobalRounds(s, r - 1), x, 2 * (r - 1), 2 * r);
  }

  /** An even phase t followed by the odd phase t + 1 advances the bound to t + 2. */
  lemma RoundProgress(u: seq<nat>, x: nat, t: nat, t': nat)
    requires t % 2 == 0 && t' == t + 2 && Progress(u, x, t)
    ensures Progress(GlobalRound(u), x, t')
  {
    assert (t + 1) % 2 == 1;
    PhaseProgress(u, x, t);
    PhaseProgress(Sweep(u, 0, |u| - 1), x, t + 1);
  }

  /** A suffix holding as many high values as cells is all high. */
  lemma {:induction false} AboveFull(s: seq<nat>, x: nat, m: nat)
    requires m <= |s| && Above(s, x, m) == |s| - m
    ensures forall i :: m <= i < |s| ==> s[i] >= x
    decreases |s| - m
  {
    if m < |s| {
      AboveStep(s, x, m);
      AboveFull(s, x, m + 1);
    }
  }

  /** Cells between two suffixes with equal counts are all low. */
  lemma {:induction false} AboveSame(s: seq<nat>, x: nat, k: nat, m: nat)
    requires k <= m <= |s| && Above(s, x, k) == Above(s, x, m)
    ensures forall i :: k <= i < m ==> s[i] < x
    decreases m - k
  {
    if k < m {
      AboveStep(s, x, k);
      AboveMonotone(s, x, k + 1, m);
      AboveSame(s, x, k + 1, m);
    }
  }

  lemma {:induction false} AboveMonotone(s: seq<nat>, x: nat, k: nat, m: nat)
    requires k <= m <= |s|
    ensures Above(s, x, k) >= Above(s, x, m)
    decreases m - k
  {
    if k < m {
      AboveStep(s, x, k);
      AboveMonotone(s, x, k + 1, m);
    }
  }

  /**
   * Once the bound holds for t = 2 n, the cells holding a value >= x are
   * exactly the last ones.
   */
  lemma HighCellsLast(u: seq<nat>, x: nat)
    requires Progress(u, x, 2 * |u|)
    ensures forall i :: 0 <= i < |u| ==> (u[i] >= x <==> i >= |u| - Above(u, x, 0))
  {
    var n, k := |u|, Above(u, x, 0);
    if k >= 1 {
      assert Target(n, 2 * n, k) == n - k;
      AboveFull(u, x, n - k);
      AboveMonotone(u, x, 0, n - k);
    }
    AboveSame(u, x, 0, n - k);
  }

  /**
   * The classical result: |s| rounds of odd-even transposition sort s, and
   * leave its multiset of values unchanged.
   */
  lemma GlobalRoundsSort(s: seq<nat>)
    ensures Sorted(GlobalRounds(s, |s|))
    ensures multiset(GlobalRounds(s, |s|)) == multiset(s)
  {
    var u := GlobalRounds(s, |s|);
    forall i, j | 0 <= i < j < |u|
      ensures u[i] <= u[j]
    {
      RoundsProgress(s, u[i], |s|);
      HighCellsLast(u, u[i]);
    }
    GlobalRoundsPermute(s, |s|);
  }

  lemma {:induction false} GlobalRoundsPermute(s: seq<nat>, m: nat)
    ensures multiset(GlobalRounds(s, m)) == multiset(s)
  {
    if m > 0 {
      calc {
        multiset(GlobalRounds(s, m));
        multiset(GlobalRound(GlobalRounds(s, m - 1)));
        { GlobalRoundPermutes(GlobalRounds(s, m - 1)); }
        multiset(GlobalRounds(s, m - 1));
        { GlobalRoundsPermute(s, m - 1); }
        multiset(s);
      }
    }
  }

  lemma GlobalRoundsStep(s: seq<nat>, m: nat)
    ensures m == 0 ==> GlobalRounds(s, m) == s
    ensures m > 0 ==> GlobalRounds(s, m) == GlobalRound(GlobalRounds(s, m - 1))
  {
  }

  /** One global round keeps the multiset. */
  lemma GlobalRoundPermutes(u: seq<nat>)
    ensures multiset(GlobalRound(u)) == multiset(u)
  {
    var v := Sweep(u, 0, |u| - 1);
    SweepPermutes(u, 0, |u| - 1);
    SweepPermutes(v, 1, |v| - 1);
  }
}
