/** The concurrent sort gets done: while nothing is appended, the list is sorted after a bounded number of actions of its
    sorters, however many they are and however they take turns. */
module ConcurrentSortProgress {
  import opened ConcurrentSort
  import opened ConcurrentSortPasses
  import opened Sums
  import opened Sync
  import opened Texts

  /** No thread is appending. */
  ghost predicate Quiet(s: State) {
    forall t :: 0 <= t < |s.threads| ==> Appender(s.threads[t]) ==> s.threads[t].PushIdle?
  }

  /** The thread ends a pass that neither swapped nor was slipped past: the list is sorted. */
  predicate GoodEnd(s: State, i: nat)
    requires Shape(s) && i < |s.threads|
  {
    s.threads[i] == EndPass(true) && s.passes[i].slips == {}
  }

  /** More than the actions of one pass over `n` nodes. */
  function Turn(n: nat): nat { 7 * n + 3 }

  /** How many actions a thread has before its next pass starts. */
  function Left(pc: Pc, n: nat): int {
    match pc
    case Sleep => 7 * n + 3
    case StartPass => 7 * n + 2
    case LockNode(j, _) => 7 * (n - j) + 1
    case AtNode(j, _) => 7 * (n - j)
    case LockNext(j, _) => 7 * (n - j) - 1
    case Compare(j, _) => 7 * (n - j) - 2
    case UnlockNext(j, _) => 7 * (n - j) - 3
    case UnlockNode(j, _) => 7 * (n - j) - 4
    case Advance(j, _) => 7 * (n - j) - 5
    case EndPass(_) => 1
    case _ => 0
  }

  ghost function LeftOf(n: nat): Pc -> int { pc => Left(pc, n) }

  /** A pass under way that will not be a good one. */
  function Spoiled(entry: (Pc, Pass)): int {
    if InPass(entry.0) && (!entry.0.calm || entry.1.slips != {}) then 1 else 0
  }

  function Entries(s: State): (r: seq<(Pc, Pass)>)
    requires Shape(s)
    ensures |r| == |s.threads| && forall t :: 0 <= t < |r| ==> r[t] == (s.threads[t], s.passes[t])
  {
    seq(|s.threads|, t requires 0 <= t < |s.threads| => (s.threads[t], s.passes[t]))
  }

  /** The passes that are or may yet be spoiled: each swap that is left can spoil one of every thread. */
  ghost function Spoils(s: State): int
    requires Shape(s)
  {
    |s.threads| * Inversions(s.lines) + Sum(Entries(s), Spoiled)
  }

  ghost function Measure(s: State): int
    requires Shape(s)
  {
    Turn(|s.lines|) * Spoils(s) + Sum(s.threads, LeftOf(|s.lines|))
  }

  lemma SpoiledBounds(s: State)
    requires Shape(s)
    ensures 0 <= Sum(Entries(s), Spoiled) <= |s.threads|
  {
    SumBounds(Entries(s), Spoiled, 0, 1);
  }

  lemma OneLess(k: nat, a: int)
    ensures k * (a - 1) == k * a - k
  {
  }

  lemma SwapSpends(s: State, i: nat)
    requires Shape(s) && AllPlaced(s) && i < |s.threads| && Enabled(s, i) && Swaps(s.threads[i], s.lines)
    ensures Spoils(Act(s, i)) <= Spoils(s)
  {
    var s', threads := Act(s, i), |s.threads|;
    SwapRemovesOne(s.lines, s.threads[i].j);
    SpoiledBounds(s);
    SpoiledBounds(s');
    OneLess(threads, Inversions(s.lines));
  }

  lemma OtherwiseKept(s: State, i: nat)
    requires Shape(s) && AllPlaced(s) && Quiet(s) && i < |s.threads| && Enabled(s, i) && !Swaps(s.threads[i], s.lines)
    requires !GoodEnd(s, i)
    ensures Spoils(Act(s, i)) <= Spoils(s) - if s.threads[i].EndPass? then 1 else 0
  {
    var s' := Act(s, i);
    assert !Appender(s.threads[i]);
    assert Entries(s') == Entries(s)[i := (s'.threads[i], s'.passes[i])];
    SumUpdate(Entries(s), i, (s'.threads[i], s'.passes[i]), Spoiled);
  }

  lemma MovedLeft(pc: Pc, n: nat, swaps: bool, finished: bool)
    requires Placed(pc, n) && !Appender(pc) && !pc.Exited?
    ensures Left(Moved(pc, n, swaps, finished), n) <= Left(pc, n) - 1 + if pc.EndPass? then Turn(n) else 0
  {
  }

  lemma LeftDrops(s: State, i: nat)
    requires Shape(s) && AllPlaced(s) && i < |s.threads| && Enabled(s, i) && !Appender(s.threads[i])
    ensures var s', n := Act(s, i), |s.lines|;
            && |s'.lines| == n
            && Sum(s'.threads, LeftOf(n)) <= Sum(s.threads, LeftOf(n)) - 1 + if s.threads[i].EndPass? then Turn(n) else 0
  {
    var pc, n := s.threads[i], |s.lines|;
    assert Placed(pc, n);
    MovedLeft(pc, n, Swaps(pc, s.lines), s.finished);
    SumUpdate(s.threads, i, Moved(pc, n, Swaps(pc, s.lines), s.finished), LeftOf(n));
  }

  lemma ScaleUp(k: nat, a: int, b: int)
    requires a <= b
    ensures k * a <= k * b
  {
  }

  /** A pass that ends costs one spoil, and the spoil pays for the next pass. */
  lemma Lower(k: nat, a: int, b: int, x: int, y: int, ends: bool)
    requires b <= a - (if ends then 1 else 0) && y <= x - 1 + if ends then k else 0
    ensures k * b + y < k * a + x
  {
    if ends {
      ScaleUp(k, b, a - 1);
      OneLess(k, a);
    } else {
      ScaleUp(k, b, a);
    }
  }

  lemma SpoilsKept(s: State, i: nat)
    requires Shape(s) && AllPlaced(s) && Quiet(s) && i < |s.threads| && Enabled(s, i) && !GoodEnd(s, i)
    ensures Spoils(Act(s, i)) <= Spoils(s) - if s.threads[i].EndPass? then 1 else 0
  {
    if Swaps(s.threads[i], s.lines) {
      SwapSpends(s, i);
    } else {
      OtherwiseKept(s, i);
    }
  }

  /** Every action lowers the measure, but for the end of a good pass. */
  lemma StepLowers(s: State, i: nat)
    requires Shape(s) && AllPlaced(s) && Quiet(s) && i < |s.threads| && Enabled(s, i) && !GoodEnd(s, i)
    ensures Measure(Act(s, i)) < Measure(s)
  {
    var s', n := Act(s, i), |s.lines|;
    SpoilsKept(s, i);
    assert !Appender(s.threads[i]);
    LeftDrops(s, i);
    Lower(Turn(n), Spoils(s), Spoils(s'), Sum(s.threads, LeftOf(n)), Sum(s'.threads, LeftOf(n)), s.threads[i].EndPass?);
  }

  lemma StepQuiet(s: State, i: nat)
    requires Shape(s) && AllPlaced(s) && Quiet(s) && i < |s.threads| && Enabled(s, i)
    ensures Quiet(Act(s, i)) && |Act(s, i).lines| == |s.lines|
    ensures Sorted(s.lines) ==> Act(s, i).lines == s.lines
  {
    assert !Appender(s.threads[i]) && Placed(s.threads[i], |s.lines|);
  }

  /** The most actions that the sorters need for a list of `n`. */
  function MostSteps(n: nat, threads: nat): nat {
    Turn(n) * (threads * MostInversions(n) + 2 * threads)
  }

  lemma LeftBounds(s: State)
    requires Shape(s) && AllPlaced(s)
    ensures 0 <= Sum(s.threads, LeftOf(|s.lines|)) <= Turn(|s.lines|) * |s.threads|
  {
    var n := |s.lines|;
    forall t | 0 <= t < |s.threads|
      ensures 0 <= LeftOf(n)(s.threads[t]) <= Turn(n)
    {
      assert Placed(s.threads[t], n);
    }
    SumBounds(s.threads, LeftOf(n), 0, Turn(n));
  }

  lemma SpoilsBounds(s: State)
    requires Shape(s)
    ensures 0 <= Spoils(s) <= |s.threads| * MostInversions(|s.lines|) + |s.threads|
  {
    SpoiledBounds(s);
    InversionsBound(s.lines);
    ScaleUp(|s.threads|, Inversions(s.lines), MostInversions(|s.lines|));
    ScaleUp(|s.threads|, 0, Inversions(s.lines));
  }

  lemma Spread(k: nat, a: int, b: int)
    ensures k * a + k * b == k * (a + b)
  {
  }

  lemma MeasureBounds(s: State)
    requires Shape(s) && AllPlaced(s)
    ensures 0 <= Measure(s) <= MostSteps(|s.lines|, |s.threads|)
  {
    var k, threads := Turn(|s.lines|), |s.threads|;
    var most := threads * MostInversions(|s.lines|) + threads;
    LeftBounds(s);
    SpoilsBounds(s);
    ScaleUp(k, 0, Spoils(s));
    ScaleUp(k, Spoils(s), most);
    Spread(k, most, threads);
  }

  ghost predicate OnlySteps(events: seq<Event>) {
    forall k :: 0 <= k < |events| ==> events[k].Step?
  }

  lemma {:induction false} SortedStays(initial: seq<Text>, s: State, events: seq<Event>)
    requires Inv(initial, s) && Quiet(s) && Sorted(s.lines) && Runs(s, events) && OnlySteps(events)
    ensures Run(s, events).lines == s.lines
    decreases |events|
  {
    if events != [] {
      NextInv(initial, s, events[0]);
      StepQuiet(s, events[0].i);
      SortedStays(initial, Next(s, events[0]), events[1..]);
    }
  }

  /** A run in two parts. */
  datatype Parts = Parts(before: seq<Event>, after: seq<Event>) {
    function Whole(): seq<Event> { before + after }
  }

  /** After the first part of a run from `s` a sorter ends a pass without a swap on a sorted list, and to the end of the
      run the list stays as it is. */
  ghost predicate SortedAfter(s: State, run: Parts) {
    match run
    case Parts(before, after) =>
      && after != [] && after[0].Step? && Runs(s, before) && Runs(s, run.Whole())
      && var m := Run(s, before);
      && after[0].i < |m.threads| && m.threads[after[0].i] == EndPass(true)
      && Sorted(m.lines) && Run(s, run.Whole()).lines == m.lines
  }

  /** All is set for sorting with at most `budget` actions. */
  ghost predicate Within(initial: seq<Text>, s: State, budget: nat) {
    Inv(initial, s) && AllOrdered(s) && Quiet(s) && Measure(s) <= budget
  }

  lemma GoodEndHere(initial: seq<Text>, s: State, budget: nat, events: seq<Event>)
    requires Within(initial, s, budget) && Runs(s, events) && OnlySteps(events)
    requires events != [] && GoodEnd(s, events[0].i)
    ensures SortedAfter(s, Parts([], events))
  {
    var i := events[0].i;
    assert Parts([], events).Whole() == events;
    assert Ordered(s.lines, s.threads[i], s.passes[i]);
    SlipsAreAll(s.lines, s.passes[i]);
    SortedStays(initial, s, events);
  }

  lemma StepOn(initial: seq<Text>, s: State, budget: nat, e: Event)
    requires Within(initial, s, budget) && e.Step? && Possible(s, e) && !GoodEnd(s, e.i)
    ensures budget > 0 && Within(initial, Next(s, e), budget - 1)
  {
    StepLowers(s, e.i);
    StepQuiet(s, e.i);
    NextInv(initial, s, e);
    NextOrdered(initial, s, e);
    MeasureBounds(Next(s, e));
  }

  lemma OneEarlier(s: State, e: Event, run: Parts)
    requires Possible(s, e) && SortedAfter(Next(s, e), run)
    ensures SortedAfter(s, Parts([e] + run.before, run.after))
  {
    assert ([e] + run.before)[1..] == run.before;
    assert Parts([e] + run.before, run.after).Whole()[1..] == run.Whole();
  }

  lemma {:induction false} GoodEndComes(initial: seq<Text>, s: State, budget: nat, events: seq<Event>) returns (run: Parts)
    requires Within(initial, s, budget) && Runs(s, events) && OnlySteps(events) && |events| > budget
    ensures run.Whole() == events && |run.before| <= budget && SortedAfter(s, run)
    decreases |events|
  {
    var e := events[0];
    if GoodEnd(s, e.i) {
      GoodEndHere(initial, s, budget, events);
      run := Parts([], events);
    } else {
      StepOn(initial, s, budget, e);
      run := GoodEndComes(initial, Next(s, e), budget - 1, events[1..]);
      OneEarlier(s, e, run);
      run := Parts([e] + run.before, run.after);
    }
  }

  /** Once the appenders are idle, whatever happened before and whatever the schedule: within a bounded number of actions
      a sorter ends a pass without a swap on a sorted list, and sorted the list stays. */
  lemma SortedInTime(lines: seq<Text>, sorters: nat, appenders: nat, past: seq<Event>, events: seq<Event>)
    returns (run: Parts)
    requires lines != [] && Runs(Init(lines, sorters, appenders), past)
    requires var s := Run(Init(lines, sorters, appenders), past);
             && Quiet(s) && Runs(s, events) && OnlySteps(events)
             && |events| > MostSteps(|s.lines|, sorters + appenders)
    ensures var s := Run(Init(lines, sorters, appenders), past);
            run.Whole() == events && |run.before| <= MostSteps(|s.lines|, sorters + appenders) && SortedAfter(s, run)
  {
    FromInit(lines, sorters, appenders, past);
    var s := Run(Init(lines, sorters, appenders), past);
    MeasureBounds(s);
    run := GoodEndComes(lines, s, MostSteps(|s.lines|, sorters + appenders), events);
  }
}
