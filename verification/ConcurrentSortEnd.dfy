/** How the concurrent sort ends: after the interrupt every sorter leaves within a bounded number of actions, and if one of
    them has started a pass since the last append, they leave a sorted list. */
module ConcurrentSortEnd {
  import opened ConcurrentSort
  import opened ConcurrentSortPasses
  import opened ConcurrentSortProgress
  import opened Sums
  import opened Sync
  import opened Texts

  // ---------- the list they leave ----------

  /** A sorter that is about to start a pass, or that has swapped in its pass and so will start another, or behind whose
      pass all lines are in order. */
  predicate Owes(s: State, t: nat)
    requires Shape(s) && t < |s.threads|
  {
    s.threads[t].StartPass? || (InPass(s.threads[t]) && (!s.threads[t].calm || s.passes[t].slips == {}))
  }

  /** The list is sorted, or there is somebody to see to it. */
  ghost predicate InGoodHands(s: State)
    requires Shape(s)
  {
    Sorted(s.lines) || exists t :: 0 <= t < |s.threads| && Owes(s, t)
  }

  /** A sorter hands its duty to itself, as long as it swaps nothing on a sorted list. */
  lemma OwnDuty(s: State, i: nat)
    requires Shape(s) && AllPlaced(s) && Quiet(s) && i < |s.threads| && Enabled(s, i)
    requires Ordered(s.lines, s.threads[i], s.passes[i]) && Owes(s, i)
    ensures Owes(Act(s, i), i) || Sorted(s.lines)
  {
    assert Placed(s.threads[i], |s.lines|);
    if GoodEnd(s, i) {
      SlipsAreAll(s.lines, s.passes[i]);
    }
  }

  /** Whoever swaps takes the duty over, and otherwise it stays where it is. */
  lemma OthersDuty(s: State, t: nat, i: nat)
    requires Shape(s) && AllPlaced(s) && Quiet(s) && t < |s.threads| && i < |s.threads| && i != t && Enabled(s, i)
    requires Owes(s, t)
    ensures Owes(Act(s, i), t) || Owes(Act(s, i), i)
  {
    assert Placed(s.threads[i], |s.lines|) && !Appender(s.threads[i]);
  }

  lemma StepInGoodHands(s: State, i: nat)
    requires Shape(s) && AllPlaced(s) && AllOrdered(s) && Quiet(s) && i < |s.threads| && Enabled(s, i) && InGoodHands(s)
    ensures InGoodHands(Act(s, i))
  {
    StepQuiet(s, i);
    if !Sorted(s.lines) {
      var t :| 0 <= t < |s.threads| && Owes(s, t);
      assert Ordered(s.lines, s.threads[t], s.passes[t]);
      if t == i {
        OwnDuty(s, i);
      } else {
        OthersDuty(s, t, i);
      }
    }
  }

  /** Nothing is appended, but the interrupt may come. */
  ghost predicate NoLines(events: seq<Event>) {
    forall k :: 0 <= k < |events| ==> !events[k].Give?
  }

  lemma NextInGoodHands(initial: seq<Text>, s: State, e: Event)
    requires Inv(initial, s) && AllOrdered(s) && Quiet(s) && InGoodHands(s) && Possible(s, e) && !e.Give?
    ensures Inv(initial, Next(s, e)) && AllOrdered(Next(s, e)) && Quiet(Next(s, e)) && InGoodHands(Next(s, e))
  {
    NextInv(initial, s, e);
    NextOrdered(initial, s, e);
    if e.Step? {
      StepQuiet(s, e.i);
      StepInGoodHands(s, e.i);
    } else if !Sorted(s.lines) {
      var t :| 0 <= t < |s.threads| && Owes(s, t);
      assert Owes(Next(s, e), t);
    }
  }

  lemma {:induction false} RunInGoodHands(initial: seq<Text>, s: State, events: seq<Event>)
    requires Inv(initial, s) && AllOrdered(s) && Quiet(s) && InGoodHands(s) && Runs(s, events) && NoLines(events)
    ensures var s' := Run(s, events); Inv(initial, s') && Quiet(s') && InGoodHands(s')
    decreases |events|
  {
    if events != [] {
      NextInGoodHands(initial, s, events[0]);
      RunInGoodHands(initial, Next(s, events[0]), events[1..]);
    }
  }

  /** Nobody can act. */
  ghost predicate AtRest(s: State)
    requires Shape(s) && AllPlaced(s)
  {
    forall t :: 0 <= t < |s.threads| ==> !Enabled(s, t)
  }

  /** When nobody can act, every sorter has left. */
  lemma RestMeansLeft(initial: seq<Text>, s: State, t: nat)
    requires Inv(initial, s) && Quiet(s) && AtRest(s) && t < |s.threads|
    ensures s.threads[t].Exited? || s.threads[t].PushIdle?
  {
    if !s.threads[t].Exited? && !s.threads[t].PushIdle? {
      var u := NoDeadlock(initial, s, t);
    }
  }

  /** The first `sorters` threads are the sorters. */
  ghost predicate Roles(s: State, sorters: nat) {
    Shape(s) && sorters <= |s.threads| && forall u :: 0 <= u < sorters ==> !Appender(s.threads[u])
  }

  lemma {:induction false} RunRoles(s: State, sorters: nat, events: seq<Event>)
    requires Runs(s, events) && Roles(s, sorters)
    ensures Roles(Run(s, events), sorters)
    decreases |events|
  {
    if events != [] {
      RunRoles(Next(s, events[0]), sorters, events[1..]);
    }
  }

  ghost predicate AllLeft(s: State, sorters: nat) {
    forall u :: 0 <= u < sorters ==> u < |s.threads| && s.threads[u].Exited?
  }

  lemma RestIsAllLeft(initial: seq<Text>, s: State, sorters: nat)
    requires Inv(initial, s) && Quiet(s) && AtRest(s) && Roles(s, sorters)
    ensures AllLeft(s, sorters)
  {
    forall u | 0 <= u < sorters
      ensures s.threads[u].Exited?
    {
      RestMeansLeft(initial, s, u);
    }
  }

  lemma RestIsSorted(initial: seq<Text>, s: State)
    requires Inv(initial, s) && Quiet(s) && AtRest(s) && InGoodHands(s)
    ensures Sorted(s.lines)
  {
    if !Sorted(s.lines) {
      var u :| 0 <= u < |s.threads| && Owes(s, u);
      RestMeansLeft(initial, s, u);
    }
  }

  lemma EndsWell(initial: seq<Text>, s: State, sorters: nat, events: seq<Event>)
    requires Inv(initial, s) && AllOrdered(s) && Quiet(s) && InGoodHands(s) && Roles(s, sorters)
    requires Runs(s, events) && NoLines(events)
    ensures AllPlaced(Run(s, events))
    ensures AtRest(Run(s, events)) ==> AllLeft(Run(s, events), sorters) && Sorted(Run(s, events).lines)
  {
    RunInGoodHands(initial, s, events);
    RunRoles(s, sorters, events);
    if AtRest(Run(s, events)) {
      RestIsAllLeft(initial, Run(s, events), sorters);
      RestIsSorted(initial, Run(s, events));
    }
  }

  /** If some sorter has started a pass since the last append, or has swapped in the one it is in, then they leave a sorted
      list, whatever the schedule and whenever the interrupt comes. */
  lemma LeftSorted(lines: seq<Text>, sorters: nat, appenders: nat, past: seq<Event>, t: nat, events: seq<Event>)
    requires lines != [] && Runs(Init(lines, sorters, appenders), past)
    requires var s := Run(Init(lines, sorters, appenders), past);
             t < |s.threads| && Quiet(s) && Owes(s, t) && Runs(s, events) && NoLines(events)
    ensures var s' := Run(Run(Init(lines, sorters, appenders), past), events);
            AllPlaced(s') && (AtRest(s') ==> AllLeft(s', sorters) && Sorted(s'.lines))
  {
    FromInit(lines, sorters, appenders, past);
    RunRoles(Init(lines, sorters, appenders), sorters, past);
    EndsWell(lines, Run(Init(lines, sorters, appenders), past), sorters, events);
  }

  /** The interrupt has come and finds every sorter asleep or gone. */
  ghost predicate Asleep(s: State) {
    s.finished && forall t :: 0 <= t < |s.threads| ==> s.threads[t].Sleep? || s.threads[t].Exited? || s.threads[t].PushIdle?
  }

  lemma NextAsleep(s: State, e: Event)
    requires Asleep(s) && Possible(s, e) && !e.Give?
    ensures Asleep(Next(s, e)) && Next(s, e).lines == s.lines
  {
  }

  /** Then they leave the list as it is, sorted or not: no pass is made for what was appended while they slept. */
  lemma {:induction false} LeftAsItIs(s: State, events: seq<Event>)
    requires Asleep(s) && Runs(s, events) && NoLines(events)
    ensures Run(s, events).lines == s.lines
    decreases |events|
  {
    if events != [] {
      NextAsleep(s, events[0]);
      LeftAsItIs(Next(s, events[0]), events[1..]);
    }
  }

  // ---------- they do leave ----------

  /** How many actions a thread has before it leaves, if it swaps nothing more and has been asked to stop. */
  function Remaining(pc: Pc, n: nat): int {
    match pc
    case Sleep => 1
    case StartPass => 7 * n + 4
    case LockNode(j, _) => 7 * (n - j) + 3
    case AtNode(j, _) => 7 * (n - j) + 2
    case LockNext(j, _) => 7 * (n - j) + 1
    case Compare(j, _) => 7 * (n - j)
    case UnlockNext(j, _) => 7 * (n - j) - 1
    case UnlockNode(j, _) => 7 * (n - j) - 2
    case Advance(j, _) => 7 * (n - j) - 3
    case EndPass(_) => 2
    case _ => 0
  }

  ghost function RemainingOf(n: nat): Pc -> int { pc => Remaining(pc, n) }

  /** The swaps that are left, and the passes that have swapped: each can make one more pass necessary. */
  ghost function PassesDue(s: State): int {
    Inversions(s.lines) + Sum(s.threads, Stirred)
  }

  ghost function WayOut(s: State): int {
    Turn(|s.lines|) * PassesDue(s) + Sum(s.threads, RemainingOf(|s.lines|))
  }

  lemma MovedRemaining(pc: Pc, n: nat, swaps: bool)
    requires Placed(pc, n) && !Appender(pc) && !pc.Exited?
    ensures Remaining(Moved(pc, n, swaps, true), n) <=
            Remaining(pc, n) - 1 + if pc.EndPass? && !pc.calm then Turn(n) else 0
  {
  }

  lemma RemainingDrops(s: State, i: nat)
    requires Shape(s) && AllPlaced(s) && i < |s.threads| && Enabled(s, i) && !Appender(s.threads[i]) && s.finished
    ensures var s', n, pc := Act(s, i), |s.lines|, s.threads[i];
            && |s'.lines| == n && s'.finished
            && Sum(s'.threads, RemainingOf(n)) <=
               Sum(s.threads, RemainingOf(n)) - 1 + if pc.EndPass? && !pc.calm then Turn(n) else 0
  {
    var pc, n := s.threads[i], |s.lines|;
    assert Placed(pc, n);
    MovedRemaining(pc, n, Swaps(pc, s.lines));
    SumUpdate(s.threads, i, Moved(pc, n, Swaps(pc, s.lines), true), RemainingOf(n));
  }

  lemma PassesDueDrop(s: State, i: nat)
    requires Shape(s) && AllPlaced(s) && i < |s.threads| && Enabled(s, i) && !Appender(s.threads[i])
    ensures PassesDue(Act(s, i)) <= PassesDue(s) - if s.threads[i].EndPass? && !s.threads[i].calm then 1 else 0
  {
    var pc := s.threads[i];
    assert Placed(pc, |s.lines|);
    SumUpdate(s.threads, i, Act(s, i).threads[i], Stirred);
    if Swaps(pc, s.lines) {
      SwapRemovesOne(s.lines, pc.j);
    }
  }

  lemma StepOut(s: State, i: nat)
    requires Shape(s) && AllPlaced(s) && Quiet(s) && i < |s.threads| && Enabled(s, i) && s.finished
    ensures Act(s, i).finished && WayOut(Act(s, i)) < WayOut(s)
  {
    var s', n := Act(s, i), |s.lines|;
    assert !Appender(s.threads[i]);
    RemainingDrops(s, i);
    PassesDueDrop(s, i);
    Lower(Turn(n), PassesDue(s), PassesDue(s'), Sum(s.threads, RemainingOf(n)), Sum(s'.threads, RemainingOf(n)),
          s.threads[i].EndPass? && !s.threads[i].calm);
  }

  /** The most actions after the interrupt. */
  function MostToLeave(n: nat, threads: nat): nat {
    Turn(n) * (MostInversions(n) + threads) + (7 * n + 4) * threads
  }

  lemma WayOutBounds(s: State)
    requires Shape(s) && AllPlaced(s)
    ensures 0 <= WayOut(s) <= MostToLeave(|s.lines|, |s.threads|)
  {
    var n := |s.lines|;
    forall t | 0 <= t < |s.threads|
      ensures 0 <= RemainingOf(n)(s.threads[t]) <= 7 * n + 4
    {
      assert Placed(s.threads[t], n);
    }
    SumBounds(s.threads, RemainingOf(n), 0, 7 * n + 4);
    SumBounds(s.threads, Stirred, 0, 1);
    InversionsBound(s.lines);
    ScaleUp(Turn(n), 0, PassesDue(s));
    ScaleUp(Turn(n), PassesDue(s), MostInversions(n) + |s.threads|);
  }

  lemma {:induction false} WayOutShrinks(initial: seq<Text>, s: State, events: seq<Event>)
    requires Inv(initial, s) && Quiet(s) && s.finished && Runs(s, events) && OnlySteps(events)
    ensures |events| <= WayOut(s) && Inv(initial, Run(s, events)) && Quiet(Run(s, events))
    decreases |events|
  {
    if events == [] {
      WayOutBounds(s);
    } else {
      NextInv(initial, s, events[0]);
      StepQuiet(s, events[0].i);
      StepOut(s, events[0].i);
      WayOutShrinks(initial, Next(s, events[0]), events[1..]);
    }
  }

  ghost predicate Interrupted(events: seq<Event>) {
    exists k :: 0 <= k < |events| && events[k].Interrupt?
  }

  /** The sorters are asked to stop by the interrupt and by nothing else. */
  lemma {:induction false} AskedToStop(s: State, events: seq<Event>)
    requires Runs(s, events)
    ensures Run(s, events).finished <==> s.finished || Interrupted(events)
    decreases |events|
  {
    if events != [] {
      var rest := events[1..];
      AskedToStop(Next(s, events[0]), rest);
      if Interrupted(rest) {
        var k :| 0 <= k < |rest| && rest[k].Interrupt?;
        assert events[k + 1] == rest[k];
      }
      if Interrupted(events) {
        var k :| 0 <= k < |events| && events[k].Interrupt?;
        assert k > 0 ==> rest[k - 1] == events[k];
      }
    }
  }

  /** After the interrupt, with idle appenders, no schedule has more actions than this; and when nobody can act any more,
      every sorter has left. */
  lemma EveryoneLeaves(lines: seq<Text>, sorters: nat, appenders: nat, past: seq<Event>, events: seq<Event>)
    requires lines != [] && Runs(Init(lines, sorters, appenders), past)
    requires var s := Run(Init(lines, sorters, appenders), past);
             Interrupted(past) && Quiet(s) && Runs(s, events) && OnlySteps(events)
    ensures var s := Run(Init(lines, sorters, appenders), past);
            && |events| <= MostToLeave(|s.lines|, sorters + appenders)
            && AllPlaced(Run(s, events)) && (AtRest(Run(s, events)) ==> AllLeft(Run(s, events), sorters))
  {
    FromInit(lines, sorters, appenders, past);
    RunRoles(Init(lines, sorters, appenders), sorters, past);
    var s := Run(Init(lines, sorters, appenders), past);
    AskedToStop(Init(lines, sorters, appenders), past);
    WayOutShrinks(lines, s, events);
    WayOutBounds(s);
    RunRoles(s, sorters, events);
    if AtRest(Run(s, events)) {
      RestIsAllLeft(lines, Run(s, events), sorters);
    }
  }
}
