/**
 * Two threads running compare_and_switch at the same time on the shared
 * array, one line of the function per step: thread A on the pair
 * (i, i + 1), thread B on (j, j + 1), interleaved by a schedule.
 *
 * When the pairs are disjoint every schedule gives the result of running
 * the two calls one after the other, which is what the sequenced phases of
 * the model rely on. When they share a cell, as the even-phase pairs
 * (24, 25) and (25, 26) of pThreads.c do, a schedule can lose a value.
 */
module Race {
  import opened Transposition

  /** The line of compare_and_switch a thread is about to execute. */
  datatype Line = Compare | LoadTemp | StoreLeft | StoreRight | Done

  /** A thread's program counter and its local variable temp. */
  datatype Local = Local(pc: Line, temp: nat)

  const Start: Local := Local(Compare, 0)

  /**
   * One line of compare_and_switch(&p[i], &p[i + 1]) for one thread; it
   * touches no cell but i and i + 1.
   */
  function Step(s: seq<nat>, i: nat, l: Local): (r: (seq<nat>, Local))
    requires i + 1 < |s|
    ensures |r.0| == |s|
    ensures forall k :: 0 <= k < |s| && k != i && k != i + 1 ==> r.0[k] == s[k]
  {
    match l.pc
    case Compare => (s, Local(if s[i] > s[i + 1] then LoadTemp else Done, l.temp))
    case LoadTemp => (s, Local(StoreLeft, s[i]))
    case StoreLeft => (s[i := s[i + 1]], Local(StoreRight, l.temp))
    case StoreRight => (s[i + 1 := l.temp], Local(Done, l.temp))
    case Done => (s, l)
  }

  /** The state after the schedule: `true` steps thread A, `false` thread B. */
  function Run(s: seq<nat>, i: nat, j: nat, la: Local, lb: Local, schedule: seq<bool>): (r: (seq<nat>, Local, Local))
    requires i + 1 < |s| && j + 1 < |s|
    ensures |r.0| == |s|
    decreases |schedule|
  {
    if schedule == [] then (s, la, lb)
    else if schedule[0] then
      var (s', la') := Step(s, i, la);
      Run(s', i, j, la', lb, schedule[1..])
    else
      var (s', lb') := Step(s, j, lb);
      Run(s', i, j, la, lb', schedule[1..])
  }

  /**
   * A thread's cells and local state are those of compare_and_switch run
   * alone from the initial array s0, up to its program counter.
   */
  predicate Agrees(s: seq<nat>, s0: seq<nat>, i: nat, l: Local)
    requires i + 1 < |s| && i + 1 < |s0|
  {
    match l.pc
    case Compare => s[i] == s0[i] && s[i + 1] == s0[i + 1]
    case LoadTemp => s0[i] > s0[i + 1] && s[i] == s0[i] && s[i + 1] == s0[i + 1]
    case StoreLeft => s0[i] > s0[i + 1] && s[i] == s0[i] && s[i + 1] == s0[i + 1] && l.temp == s0[i]
    case StoreRight => s0[i] > s0[i + 1] && s[i] == s0[i + 1] && s[i + 1] == s0[i + 1] && l.temp == s0[i]
    case Done => s[i] == Min(s0[i], s0[i + 1]) && s[i + 1] == Max(s0[i], s0[i + 1])
  }

  /** Both threads agree with s0 and the cells neither of them owns are untouched. */
  predicate Isolated(s: seq<nat>, s0: seq<nat>, i: nat, j: nat, la: Local, lb: Local)
  {
    i + 1 < j && j + 1 < |s| && |s| == |s0| &&
    Agrees(s, s0, i, la) && Agrees(s, s0, j, lb) &&
    forall k :: 0 <= k < |s| && k != i && k != i + 1 && k != j && k != j + 1 ==> s[k] == s0[k]
  }

  lemma StepIsolated(s: seq<nat>, s0: seq<nat>, i: nat, j: nat, la: Local, lb: Local, stepA: bool)
    requires Isolated(s, s0, i, j, la, lb)
    ensures stepA ==> Isolated(Step(s, i, la).0, s0, i, j, Step(s, i, la).1, lb)
    ensures !stepA ==> Isolated(Step(s, j, lb).0, s0, i, j, la, Step(s, j, lb).1)
  {
  }

  /** Every schedule keeps the threads isolated from each other. */
  lemma {:induction false} RunIsolated(s: seq<nat>, s0: seq<nat>, i: nat, j: nat, la: Local, lb: Local, schedule: seq<bool>)
    requires Isolated(s, s0, i, j, la, lb)
    ensures var r := Run(s, i, j, la, lb, schedule); Isolated(r.0, s0, i, j, r.1, r.2)
    decreases |schedule|
  {
    if schedule != [] {
      StepIsolated(s, s0, i, j, la, lb, schedule[0]);
      if schedule[0] {
        var (s', la') := Step(s, i, la);
        RunIsolated(s', s0, i, j, la', lb, schedule[1..]);
      } else {
        var (s', lb') := Step(s, j, lb);
        RunIsolated(s', s0, i, j, la, lb', schedule[1..]);
      }
    }
  }

  /**
   * Disjoint pairs: whatever the interleaving, once both calls have
   * finished the array is what the two calls give one after the other, in
   * either order.
   */
  lemma DisjointRunIsSequential(s: seq<nat>, i: nat, j: nat, schedule: seq<bool>)
    requires i + 1 < j && j + 1 < |s|
    requires Run(s, i, j, Start, Start, schedule).1.pc == Done
    requires Run(s, i, j, Start, Start, schedule).2.pc == Done
    ensures Run(s, i, j, Start, Start, schedule).0 == Switch(Switch(s, i, i + 1), j, j + 1)
    ensures Run(s, i, j, Start, Start, schedule).0 == Switch(Switch(s, j, j + 1), i, i + 1)
    ensures multiset(Run(s, i, j, Start, Start, schedule).0) == multiset(s)
  {
    assert Isolated(s, s, i, j, Start, Start);
    RunIsolated(s, s, i, j, Start, Start, schedule);
    var r := Run(s, i, j, Start, Start, schedule);
    BothDone(r.0, s, i, j, r.1, r.2);
    SwitchesPermute(r.0, s, i, j);
  }

  /** Two switches one after the other only exchange values. */
  lemma SwitchesPermute(r: seq<nat>, s: seq<nat>, i: nat, j: nat)
    requires i + 1 < |s| && j + 1 < |s| && r == Switch(Switch(s, i, i + 1), j, j + 1)
    ensures multiset(r) == multiset(s)
  {
    var u := Switch(s, i, i + 1);
    calc {
      multiset(r);
      { SwitchPermutes(u, j, j + 1); }
      multiset(u);
      { SwitchPermutes(s, i, i + 1); }
      multiset(s);
    }
  }

  /** Two finished, isolated calls have done exactly the two switches. */
  lemma BothDone(r: seq<nat>, s: seq<nat>, i: nat, j: nat, la: Local, lb: Local)
    requires Isolated(r, s, i, j, la, lb) && la.pc == Done && lb.pc == Done
    ensures r == Switch(Switch(s, i, i + 1), j, j + 1)
    ensures r == Switch(Switch(s, j, j + 1), i, i + 1)
  {
    var u := Switch(Switch(s, i, i + 1), j, j + 1);
    assert forall k :: 0 <= k < |s| ==> r[k] == u[k];
    var v := Switch(Switch(s, j, j + 1), i, i + 1);
    assert forall k :: 0 <= k < |s| ==> r[k] == v[k];
  }

  /** How many copies of x an array holds after one store. */
  lemma UpdateCount(s: seq<nat>, k: nat, v: nat, x: nat)
    requires k < |s|
    ensures multiset(s[k := v])[x] == multiset(s)[x] - (if s[k] == x then 1 else 0) + (if v == x then 1 else 0)
  {
  }

  /** The schedule of the lost update: B compares and loads, A runs, B stores. */
  const LostUpdate: seq<bool> := [false, false, true, true, true, true, false, false]

  /**
   * Overlapping pairs (24, 25) and (25, 26) holding 5, 3, 1: B compares and
   * loads temp = 3, A runs to the end, then B stores. Both calls finish and
   * the three cells hold 3, 1, 3.
   */
  lemma RacedRun(s: seq<nat>)
    requires |s| > 26 && s[24] == 5 && s[25] == 3 && s[26] == 1
    ensures Run(s, 24, 25, Start, Start, LostUpdate) == (s[24 := 3][25 := 1][26 := 3], Local(Done, 5), Local(Done, 3))
  {
    var sched := LostUpdate;
    var s1 := s[24 := 3];
    var s2 := s1[25 := 5];
    var s3 := s2[25 := 1];
    var s4 := s3[26 := 3];
    var b1, b2 := Local(LoadTemp, 0), Local(StoreLeft, 3);
    assert Run(s, 24, 25, Start, Start, sched) == Run(s, 24, 25, Start, b1, sched[1..]);
    assert Run(s, 24, 25, Start, b1, sched[1..]) == Run(s, 24, 25, Start, b2, sched[2..]);
    assert Run(s, 24, 25, Start, b2, sched[2..]) == Run(s, 24, 25, Local(LoadTemp, 0), b2, sched[3..]);
    assert Run(s, 24, 25, Local(LoadTemp, 0), b2, sched[3..]) == Run(s, 24, 25, Local(StoreLeft, 5), b2, sched[4..]);
    assert Run(s, 24, 25, Local(StoreLeft, 5), b2, sched[4..]) == Run(s1, 24, 25, Local(StoreRight, 5), b2, sched[5..]);
    assert Run(s1, 24, 25, Local(StoreRight, 5), b2, sched[5..]) == Run(s2, 24, 25, Local(Done, 5), b2, sched[6..]);
    assert Run(s2, 24, 25, Local(Done, 5), b2, sched[6..]) == Run(s3, 24, 25, Local(Done, 5), Local(StoreRight, 3), sched[7..]);
    assert Run(s3, 24, 25, Local(Done, 5), Local(StoreRight, 3), sched[7..]) == Run(s4, 24, 25, Local(Done, 5), Local(Done, 3), []);
    var t := s[24 := 3][25 := 1][26 := 3];
    assert forall k :: 0 <= k < |s| ==> s4[k] == t[k];
    assert s4 == t;
  }

  /**
   * The lost update: after both calls have finished the array holds one 5
   * fewer than before.
   */
  lemma SharedCellLosesValue(s: seq<nat>)
    requires |s| > 26 && s[24] == 5 && s[25] == 3 && s[26] == 1
    ensures Run(s, 24, 25, Start, Start, LostUpdate).1.pc == Done
    ensures Run(s, 24, 25, Start, Start, LostUpdate).2.pc == Done
    ensures multiset(Run(s, 24, 25, Start, Start, LostUpdate).0)[5] == multiset(s)[5] - 1
  {
    RacedRun(s);
    var s1 := s[24 := 3];
    var s2 := s1[25 := 1];
    UpdateCount(s, 24, 3, 5);
    UpdateCount(s1, 25, 1, 5);
    UpdateCount(s2, 26, 3, 5);
  }

  /**
   * Run one after the other the two calls keep the values, though the two
   * orders leave different arrays: 3, 1, 5 and 1, 5, 3.
   */
  lemma SequentialKeepsValue(s: seq<nat>)
    requires |s| > 26 && s[24] == 5 && s[25] == 3 && s[26] == 1
    ensures Switch(Switch(s, 24, 25), 25, 26)[24..27] == [3, 1, 5]
    ensures Switch(Switch(s, 25, 26), 24, 25)[24..27] == [1, 5, 3]
    ensures multiset(Switch(Switch(s, 24, 25), 25, 26)) == multiset(s)
  {
    SwitchPermutes(s, 24, 25);
    SwitchPermutes(Switch(s, 24, 25), 25, 26);
  }
}
