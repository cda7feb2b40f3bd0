/**
 * Value-level meaning of the compare-and-switch primitive and of one phase.
 *
 * A phase of a thread compares the pairs (j, j + 1) of the shared array for
 * j = lo, lo + 2, lo + 4, ... below hi, one after the other. `Sweep` is that
 * pass written over global indices of a sequence; the array methods in module
 * Phases are proved to compute it.
 */
module Transposition {

  function Min(x: nat, y: nat): nat { if x <= y then x else y }
  function Max(x: nat, y: nat): nat { if x <= y then y else x }

  /** Compare-and-switch on values: put the smaller of s[i], s[j] at i. */
  function Switch(s: seq<nat>, i: nat, j: nat): (r: seq<nat>)
    requires i < |s| && j < |s|
    ensures |r| == |s|
    ensures r[i] <= r[j]
    ensures r[i] == Min(s[i], s[j]) && r[j] == Max(s[i], s[j])
    ensures r == s[i := r[i]][j := r[j]]
    ensures s[i] <= s[j] ==> r == s
  {
    if s[i] > s[j] then s[i := s[j]][j := s[i]] else s
  }

  /**
   * A pass that starts at pair index lo and stops below hi stays inside a
   * sequence of length len: the last pair it compares, (j, j + 1) with j the
   * largest index below hi of lo's parity, has j + 1 < len.
   */
  predicate Fits(lo: nat, hi: int, len: nat)
  {
    hi <= lo || hi < len || (hi == len && (hi - lo) % 2 == 0)
  }

  /** Pair (j, j + 1) is one of the pairs a pass from lo below hi compares. */
  predicate Compared(lo: nat, hi: int, j: int)
  {
    lo <= j < hi && (j - lo) % 2 == 0
  }

  /**
   * Pair (k, k + 1) is compared by the phase of a thread whose block starts
   * at base and has size iEnd; the phase starts at local index first (0 for
   * the even phase, 1 for the odd phase).
   */
  predicate PhasePair(base: nat, first: nat, iEnd: int, k: int)
  {
    Compared(base + first, base + iEnd, k)
  }

  /** Every pair (k, k + 1) compared by a thread's phase is in order in r. */
  ghost predicate PairsOrdered(r: seq<nat>, base: nat, first: nat, iEnd: int)
  {
    forall k :: PhasePair(base, first, iEnd, k) ==> k + 1 < |r| && r[k] <= r[k + 1]
  }

  /** r differs from s at most in the cells lo .. hi. */
  ghost predicate SameOutside(s: seq<nat>, r: seq<nat>, lo: int, hi: int)
  {
    |r| == |s| && forall k :: 0 <= k < |s| && (k < lo || hi < k) ==> r[k] == s[k]
  }

  /**
   * One phase on values: compare-and-switch the pairs lo, lo + 2, ... below hi,
   * in increasing order. Only cells lo .. hi can change.
   */
  function Sweep(s: seq<nat>, lo: nat, hi: int): (r: seq<nat>)
    requires Fits(lo, hi, |s|)
    ensures |r| == |s|
    decreases hi - lo
  {
    if hi <= lo then s else Sweep(Switch(s, lo, lo + 1), lo + 2, hi)
  }

  /** A pass changes only cells lo .. hi. */
  lemma {:induction false} SweepFrame(s: seq<nat>, lo: nat, hi: int)
    requires Fits(lo, hi, |s|)
    ensures SameOutside(s, Sweep(s, lo, hi), lo, hi)
    decreases hi - lo
  {
    if lo < hi {
      SweepUnfold(s, lo, hi);
      SweepFrame(Switch(s, lo, lo + 1), lo + 2, hi);
    } else {
      SweepEmpty(s, lo, hi);
    }
  }

  /** A pass that compares no pair changes nothing. */
  lemma SweepEmpty(s: seq<nat>, lo: nat, hi: int)
    requires hi <= lo
    ensures Sweep(s, lo, hi) == s
  {
  }

  /** A pass that compares at least one pair switches it, then passes over the rest. */
  lemma SweepUnfold(s: seq<nat>, lo: nat, hi: int)
    requires Fits(lo, hi, |s|) && lo < hi
    ensures lo + 1 < |s| && Fits(lo + 2, hi, |s|)
    ensures Sweep(s, lo, hi) == Sweep(Switch(s, lo, lo + 1), lo + 2, hi)
  {
  }

  /** Compare-and-switch only exchanges two values: nothing is created or lost. */
  lemma SwitchPermutes(s: seq<nat>, i: nat, j: nat)
    requires i < |s| && j < |s|
    ensures multiset(Switch(s, i, j)) == multiset(s)
  {
  }

  /** A phase is a permutation of the sequence it works on. */
  lemma {:induction false} SweepPermutes(s: seq<nat>, lo: nat, hi: int)
    requires Fits(lo, hi, |s|)
    ensures multiset(Sweep(s, lo, hi)) == multiset(s)
    decreases hi - lo
  {
    if lo < hi {
      var s' := Switch(s, lo, lo + 1);
      SweepPermutes(s', lo + 2, hi);
      calc {
        multiset(Sweep(s, lo, hi));
        multiset(Sweep(s', lo + 2, hi));
        multiset(s');
        { SwitchPermutes(s, lo, lo + 1); }
        multiset(s);
      }
    }
  }

  /** Every compared pair lies inside the sequence. */
  lemma ComparedInRange(lo: nat, hi: int, len: nat, j: int)
    requires Fits(lo, hi, len) && Compared(lo, hi, j)
    ensures 0 <= j && j + 1 < len
  {
  }

  /**
   * The pairs of one phase are disjoint, so each compared pair ends up
   * holding exactly the minimum and maximum of its original two values:
   * a later switch in the same phase never undoes an earlier one.
   */
  lemma {:induction false} SweepPairs(s: seq<nat>, lo: nat, hi: int)
    requires Fits(lo, hi, |s|)
    ensures forall j :: Compared(lo, hi, j) ==>
      j + 1 < |s| &&
      Sweep(s, lo, hi)[j] == Min(s[j], s[j + 1]) &&
      Sweep(s, lo, hi)[j + 1] == Max(s[j], s[j + 1])
    decreases hi - lo
  {
    if lo < hi {
      var s' := Switch(s, lo, lo + 1);
      var r := Sweep(s', lo + 2, hi);
      assert Sweep(s, lo, hi) == r;
      SweepPairs(s', lo + 2, hi);
      SweepFrame(s', lo + 2, hi);
      forall j | Compared(lo, hi, j)
        ensures j + 1 < |s| && r[j] == Min(s[j], s[j + 1]) && r[j + 1] == Max(s[j], s[j + 1])
      {
        ComparedInRange(lo, hi, |s|, j);
        if j == lo {
          assert r[j] == s'[j] && r[j + 1] == s'[j + 1];
        } else {
          assert Compared(lo + 2, hi, j);
          assert s'[j] == s[j] && s'[j + 1] == s[j + 1];
        }
      }
    }
  }

  /** After a phase every pair it compared is in order. */
  lemma SweepOrders(s: seq<nat>, lo: nat, hi: int)
    requires Fits(lo, hi, |s|)
    ensures forall j :: Compared(lo, hi, j) ==>
      j + 1 < |s| && Sweep(s, lo, hi)[j] <= Sweep(s, lo, hi)[j + 1]
  {
    SweepPairs(s, lo, hi);
  }

  /** A phase whose pairs are all in order already changes nothing. */
  lemma {:induction false} SweepUnchanged(s: seq<nat>, lo: nat, hi: int)
    requires Fits(lo, hi, |s|)
    requires forall j :: Compared(lo, hi, j) && j + 1 < |s| ==> s[j] <= s[j + 1]
    ensures Sweep(s, lo, hi) == s
    decreases hi - lo
  {
    if lo < hi {
      ComparedInRange(lo, hi, |s|, lo);
      assert Compared(lo, hi, lo);
      assert Switch(s, lo, lo + 1) == s;
      forall j | Compared(lo + 2, hi, j) && j + 1 < |s|
        ensures s[j] <= s[j + 1]
      {
        assert Compared(lo, hi, j);
      }
      SweepUnchanged(s, lo + 2, hi);
    }
  }

  /**
   * Two passes over adjacent stretches whose first pairs have the same parity
   * make one pass: the first stops below mid, the second starts at mid.
   */
  lemma {:induction false} SweepConcat(s: seq<nat>, lo: nat, mid: nat, hi: int)
    requires lo <= mid <= hi + 1 && (mid - lo) % 2 == 0
    requires Fits(lo, hi, |s|)
    ensures Fits(lo, mid, |s|) && Fits(mid, hi, |s|)
    ensures Sweep(Sweep(s, lo, mid), mid, hi) == Sweep(s, lo, hi)
    decreases mid - lo
  {
    if lo < mid {
      assert lo + 2 <= mid && lo < hi;
      var s' := Switch(s, lo, lo + 1);
      assert Fits(lo + 2, hi, |s'|);
      SweepConcat(s', lo + 2, mid, hi);
      assert Sweep(s, lo, mid) == Sweep(s', lo + 2, mid);
      assert Sweep(s, lo, hi) == Sweep(s', lo + 2, hi);
    }
  }

  /** A pass that stops just below a pair of the other parity may as well stop after it. */
  lemma SweepExtend(s: seq<nat>, lo: nat, hi: int)
    requires lo <= hi && (hi - lo) % 2 == 1
    requires Fits(lo, hi, |s|)
    ensures Fits(lo, hi + 1, |s|)
    ensures Sweep(s, lo, hi + 1) == Sweep(s, lo, hi)
  {
    assert hi < |s|;
    SweepConcat(s, lo, hi + 1, hi);
    SweepEmpty(Sweep(s, lo, hi + 1), hi + 1, hi);
  }
}
