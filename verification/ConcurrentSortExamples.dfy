/** Two runs of the concurrent sort in which a pass without a swap ends on a list that is not sorted. */
module ConcurrentSortExamples {
  import opened ConcurrentSort
  import opened ConcurrentSortPasses
  import opened Sync
  import opened Texts

  lemma {:induction false} RunsOn(s: State, a: seq<Event>, b: seq<Event>)
    requires Runs(s, a) && Runs(Run(s, a), b)
    ensures Runs(s, a + b) && Run(s, a + b) == Run(Run(s, a), b)
    decreases |a|
  {
    if a == [] {
      assert a + b == b;
    } else {
      assert (a + b)[1..] == a[1..] + b;
      RunsOn(Next(s, a[0]), a[1..], b);
    }
  }

  /** What decides what can happen next while no lock is held, and the lines appended and the starts of the passes. */
  datatype View = View(lines: seq<Text>, threads: seq<Pc>, appended: seq<Text>, starts: seq<nat>)

  ghost predicate Starts(passes: seq<Pass>, starts: seq<nat>) {
    |passes| == |starts| && forall t :: 0 <= t < |passes| ==> passes[t].start == starts[t]
  }

  ghost predicate Looks(s: State, v: View) {
    && Shape(s) && s.lines == v.lines && s.threads == v.threads && s.appended == v.appended && !s.finished
    && (forall j :: 0 <= j < |s.locks| ==> s.locks[j].Free?)
    && Starts(s.passes, v.starts)
  }

  function At(v: View, t: nat, pc: Pc): View
    requires t < |v.threads|
  {
    v.(threads := v.threads[t := pc])
  }

  lemma {:induction false} RunsAhead(s: State, events: seq<Event>, e: Event)
    requires Runs(s, events) && Possible(Run(s, events), e)
    ensures Runs(s, events + [e]) && Run(s, events + [e]) == Next(Run(s, events), e)
  {
    var s' := Run(s, events);
    assert [e][1..] == [] && Runs(Next(s', e), []);
    RunsOn(s, events, [e]);
  }

  /** A sorter that starts a pass. */
  lemma Begin(s0: State, past: seq<Event>, v: View, t: nat) returns (events: seq<Event>)
    requires Runs(s0, past) && Looks(Run(s0, past), v) && t < |v.threads| == |v.starts| && v.threads[t].Sleep?
    ensures Runs(s0, events)
    ensures Looks(Run(s0, events), At(v, t, LockNode(0, true)).(starts := v.starts[t := |v.lines|]))
  {
    RunsAhead(s0, past, Step(t));
    events := past + [Step(t)];
    RunsAhead(s0, events, Step(t));
    events := events + [Step(t)];
  }

  /** A sorter takes the locks of its node and the next. */
  lemma TakeBoth(s0: State, past: seq<Event>, v: View, t: nat, j: nat, calm: bool) returns (events: seq<Event>)
    requires Runs(s0, past) && Looks(Run(s0, past), v) && t < |v.threads| && v.threads[t] == LockNode(j, calm)
    requires j + 1 < |v.lines|
    ensures Runs(s0, events)
    ensures var s, s' := Run(s0, past), Run(s0, events);
            s' == s.(threads := s.threads[t := Compare(j, calm)], locks := s.locks[j := HeldBy(t)][j + 1 := HeldBy(t)])
  {
    RunsAhead(s0, past, Step(t));
    events := past + [Step(t)];
    RunsAhead(s0, events, Step(t));
    events := events + [Step(t)];
    RunsAhead(s0, events, Step(t));
    events := events + [Step(t)];
  }

  /** It compares their lines. */
  lemma CompareBoth(s0: State, past: seq<Event>, v: View, t: nat, j: nat, calm: bool) returns (events: seq<Event>)
    requires Runs(s0, past) && Looks(Run(s0, past), v) && t < |v.threads| && v.threads[t] == LockNode(j, calm)
    requires j + 1 < |v.lines|
    ensures Runs(s0, events)
    ensures var swaps, s, s' := Less(v.lines[j + 1], v.lines[j]), Run(s0, past), Run(s0, events);
            && Shape(s') && s'.locks == s.locks[j := HeldBy(t)][j + 1 := HeldBy(t)] && s'.appended == v.appended
            && Starts(s'.passes, v.starts)
            && s'.threads == v.threads[t := UnlockNext(j, calm && !swaps)] && !s'.finished
            && s'.lines == if swaps then Swap(v.lines, j) else v.lines
  {
    events := TakeBoth(s0, past, v, t, j, calm);
    RunsAhead(s0, events, Step(t));
    events := events + [Step(t)];
  }

  /** It lets both go, and goes on to the next. */
  lemma ReleaseBoth(s0: State, past: seq<Event>, t: nat, j: nat, calm: bool) returns (events: seq<Event>)
    requires Runs(s0, past) && Shape(Run(s0, past)) && t < |Run(s0, past).threads|
    requires var s := Run(s0, past); s.threads[t] == UnlockNext(j, calm) && j + 1 < |s.lines|
    ensures Runs(s0, events)
    ensures var s, s' := Run(s0, past), Run(s0, events);
            s' == s.(threads := s.threads[t := LockNode(j + 1, calm)], locks := s.locks[j + 1 := Free][j := Free])
  {
    RunsAhead(s0, past, Step(t));
    events := past + [Step(t)];
    RunsAhead(s0, events, Step(t));
    events := events + [Step(t)];
    RunsAhead(s0, events, Step(t));
    events := events + [Step(t)];
  }

  lemma VisitPair(s0: State, past: seq<Event>, v: View, t: nat, j: nat, calm: bool) returns (events: seq<Event>)
    requires Runs(s0, past) && Looks(Run(s0, past), v) && t < |v.threads| && v.threads[t] == LockNode(j, calm)
    requires j + 1 < |v.lines|
    ensures Runs(s0, events)
    ensures var swaps := Less(v.lines[j + 1], v.lines[j]);
            Looks(Run(s0, events), At(v, t, LockNode(j + 1, calm && !swaps))
                                   .(lines := if swaps then Swap(v.lines, j) else v.lines))
  {
    events := CompareBoth(s0, past, v, t, j, calm);
    events := ReleaseBoth(s0, events, t, j, calm && !Less(v.lines[j + 1], v.lines[j]));
  }

  /** A sorter that finds no next node lets the last one go. */
  lemma VisitLast(s0: State, past: seq<Event>, v: View, t: nat, j: nat, calm: bool) returns (events: seq<Event>)
    requires Runs(s0, past) && Looks(Run(s0, past), v) && t < |v.threads| && v.threads[t] == LockNode(j, calm)
    requires j + 1 == |v.lines|
    ensures Runs(s0, events) && Looks(Run(s0, events), At(v, t, Advance(j, calm)))
  {
    RunsAhead(s0, past, Step(t));
    events := past + [Step(t)];
    RunsAhead(s0, events, Step(t));
    events := events + [Step(t)];
    RunsAhead(s0, events, Step(t));
    events := events + [Step(t)];
  }

  lemma GoOn(s0: State, past: seq<Event>, v: View, t: nat, j: nat, calm: bool) returns (events: seq<Event>)
    requires Runs(s0, past) && Looks(Run(s0, past), v) && t < |v.threads| && v.threads[t] == Advance(j, calm)
    requires j < |v.lines|
    ensures Runs(s0, events)
    ensures Looks(Run(s0, events), At(v, t, if j + 1 < |v.lines| then LockNode(j + 1, calm) else EndPass(calm)))
  {
    RunsAhead(s0, past, Step(t));
    events := past + [Step(t)];
  }

  /** An idle appender, given a line for a list of one node. */
  lemma AppendSecond(s0: State, past: seq<Event>, v: View, t: nat, line: Text) returns (events: seq<Event>)
    requires Runs(s0, past) && Looks(Run(s0, past), v) && t < |v.threads| && v.threads[t].PushIdle? && |v.lines| == 1
    ensures Runs(s0, events)
    ensures Looks(Run(s0, events), v.(lines := v.lines + [line], appended := v.appended + [line]))
  {
    RunsAhead(s0, past, Give(t, line));
    events := past + [Give(t, line)];
    RunsAhead(s0, events, Step(t));
    events := events + [Step(t)];
    RunsAhead(s0, events, Step(t));
    events := events + [Step(t)];
    RunsAhead(s0, events, Step(t));
    events := events + [Step(t)];
  }

  lemma OneChar(a: int, b: int)
    ensures Less([a], [b]) <==> a < b
  {
    assert [a][0] == a && [b][0] == b;
  }

  /** Of a run from the start to here: a sorter has passed the one line there is, and an appender adds another. */
  lemma UpToTheAppend() returns (events: seq<Event>)
    ensures var s0 := Init([[1]], 1, 1);
            && Runs(s0, events)
            && Looks(Run(s0, events), View([[1], [0]], [Advance(0, true), PushIdle], [[0]], [1, 1]))
  {
    var s0 := Init([[1]], 1, 1);
    events := Begin(s0, [], View([[1]], [Sleep, PushIdle], [], [1, 1]), 0);
    events := VisitLast(s0, events, View([[1]], [LockNode(0, true), PushIdle], [], [1, 1]), 0, 0, true);
    events := AppendSecond(s0, events, View([[1]], [Advance(0, true), PushIdle], [], [1, 1]), 1, [0]);
  }

  lemma FirstEnds() returns (events: seq<Event>)
    ensures var s0 := Init([[1]], 1, 1);
            && Runs(s0, events)
            && Looks(Run(s0, events), View([[1], [0]], [EndPass(true), PushIdle], [[0]], [1, 1]))
  {
    var s0, lines := Init([[1]], 1, 1), [[1], [0]];
    events := UpToTheAppend();
    events := GoOn(s0, events, View(lines, [Advance(0, true), PushIdle], [[0]], [1, 1]), 0, 0, true);
    events := VisitLast(s0, events, View(lines, [LockNode(1, true), PushIdle], [[0]], [1, 1]), 0, 1, true);
    events := GoOn(s0, events, View(lines, [Advance(1, true), PushIdle], [[0]], [1, 1]), 0, 1, true);
  }

  /** A line appended between the sorter's look at `next` and its step to the next node is never compared with the line
      before it. */
  lemma AppendSlipsIn() returns (events: seq<Event>)
    ensures Runs(Init([[1]], 1, 1), events)
    ensures var s := Run(Init([[1]], 1, 1), events);
            && s.threads[0] == EndPass(true) && s.lines == [[1], [0]] && !Sorted(s.lines)
            && !s.passes[0].disturbed && s.passes[0].slips == {0}
  {
    events := FirstEnds();
    CalmPassMeansSorted([[1]], 1, 1, events, 0);
    LoneSorter([[1]], 1, events);
    OneChar(0, 1);
    assert OutAt([[1], [0]], 0) && OutOfOrder([[1], [0]]) == {0};
  }

  lemma BothBegin() returns (events: seq<Event>)
    ensures var s0 := Init([[2], [3], [1]], 2, 0);
            && Runs(s0, events)
            && Looks(Run(s0, events), View([[2], [3], [1]], [LockNode(0, true), LockNode(0, true)], [], [3, 3]))
  {
    var s0, lines := Init([[2], [3], [1]], 2, 0), [[2], [3], [1]];
    events := Begin(s0, [], View(lines, [Sleep, Sleep], [], [3, 3]), 0);
    events := Begin(s0, events, View(lines, [LockNode(0, true), Sleep], [], [3, 3]), 1);
  }

  /** Both sorters have passed the first pair. */
  lemma BothPassFirst() returns (events: seq<Event>)
    ensures var s0 := Init([[2], [3], [1]], 2, 0);
            && Runs(s0, events)
            && Looks(Run(s0, events), View([[2], [3], [1]], [LockNode(1, true), LockNode(1, true)], [], [3, 3]))
  {
    var s0, lines := Init([[2], [3], [1]], 2, 0), [[2], [3], [1]];
    events := BothBegin();
    OneChar(3, 2);
    events := VisitPair(s0, events, View(lines, [LockNode(0, true), LockNode(0, true)], [], [3, 3]), 0, 0, true);
    events := VisitPair(s0, events, View(lines, [LockNode(1, true), LockNode(0, true)], [], [3, 3]), 1, 0, true);
  }

  /** The second swaps the last two lines, and then the first finds nothing to swap there. */
  lemma SecondOvertakes() returns (events: seq<Event>)
    ensures var s0 := Init([[2], [3], [1]], 2, 0);
            && Runs(s0, events)
            && Looks(Run(s0, events), View([[2], [1], [3]], [LockNode(2, true), LockNode(2, false)], [], [3, 3]))
  {
    var s0, lines, swapped := Init([[2], [3], [1]], 2, 0), [[2], [3], [1]], [[2], [1], [3]];
    events := BothPassFirst();
    OneChar(1, 3);
    OneChar(3, 1);
    assert Swap(lines, 1) == swapped;
    events := VisitPair(s0, events, View(lines, [LockNode(1, true), LockNode(1, true)], [], [3, 3]), 1, 1, true);
    events := VisitPair(s0, events, View(swapped, [LockNode(1, true), LockNode(2, false)], [], [3, 3]), 0, 1, true);
  }

  lemma OvertakenEnds() returns (events: seq<Event>)
    ensures var s0 := Init([[2], [3], [1]], 2, 0);
            && Runs(s0, events)
            && Looks(Run(s0, events), View([[2], [1], [3]], [EndPass(true), LockNode(2, false)], [], [3, 3]))
  {
    var s0, lines := Init([[2], [3], [1]], 2, 0), [[2], [1], [3]];
    events := SecondOvertakes();
    events := VisitLast(s0, events, View(lines, [LockNode(2, true), LockNode(2, false)], [], [3, 3]), 0, 2, true);
    events := GoOn(s0, events, View(lines, [Advance(2, true), LockNode(2, false)], [], [3, 3]), 0, 2, true);
  }

  /** A second sorter that swaps right ahead of the first can put a line behind it that had to stand before the one there:
      the first ends its pass without a swap on an unsorted list, to which nothing was appended. */
  lemma SwapSlipsIn() returns (events: seq<Event>)
    ensures Runs(Init([[2], [3], [1]], 2, 0), events)
    ensures var s := Run(Init([[2], [3], [1]], 2, 0), events);
            && s.threads[0] == EndPass(true) && s.lines == [[2], [1], [3]] && !Sorted(s.lines) && s.appended == []
            && s.passes[0].disturbed && s.passes[0].slips == {0}
  {
    events := OvertakenEnds();
    CalmPassMeansSorted([[2], [3], [1]], 2, 0, events, 0);
    OneChar(1, 2);
    OneChar(3, 1);
    assert OutAt([[2], [1], [3]], 0) && !OutAt([[2], [1], [3]], 1) && OutOfOrder([[2], [1], [3]]) == {0};
  }
}
