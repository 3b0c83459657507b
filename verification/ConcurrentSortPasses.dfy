/** What the passes of the concurrent sort achieve, with any number of sorters and appenders: what a pass without a swap
    says about the list, and that without appends the list is soon sorted. */
module ConcurrentSortPasses {
  import opened ConcurrentSort
  import opened Sums
  import opened Sync
  import opened Texts

  // ---------- a calm pass ----------

  /** Of the pairs that the calm pass of a thread at `pc` has behind it, those out of order are the slips; and unless the
      pass was disturbed, none of them was there when it began. */
  ghost predicate Ordered(lines: seq<Text>, pc: Pc, pass: Pass) {
    Calm(pc) ==>
      var upTo := Frontier(pc, |lines|);
      && 1 <= pass.start <= |lines| && upTo < |lines|
      && (forall k :: 0 <= k < upTo ==> (Less(lines[k + 1], lines[k]) <==> k in pass.slips))
      && (forall k :: k in pass.slips ==> k < upTo)
      && (!pass.disturbed ==> forall k :: k in pass.slips ==> pass.start - 1 <= k)
  }

  ghost predicate AllOrdered(s: State)
    requires Shape(s)
  {
    forall t :: 0 <= t < |s.threads| ==> Ordered(s.lines, s.threads[t], s.passes[t])
  }

  /** One action of a pass: the frontier advances over the pair compared, and a swap ends the calm. */
  lemma MovedFrontier(pc: Pc, n: nat, swaps: bool, finished: bool)
    requires Placed(pc, n) && 1 <= n && (swaps ==> pc.Compare?)
    requires Calm(Moved(pc, n, swaps, finished)) && !pc.StartPass?
    ensures Calm(pc) && !swaps
    ensures Frontier(Moved(pc, n, swaps, finished), n) == Frontier(pc, n) + if pc.Compare? then 1 else 0
    ensures pc.Compare? ==> Frontier(pc, n) == pc.j
  {
  }

  /** A thread keeps its own pass in order. */
  lemma OwnAction(s: State, i: nat)
    requires Shape(s) && AllPlaced(s) && i < |s.threads| && Enabled(s, i) && Ordered(s.lines, s.threads[i], s.passes[i])
    ensures var s' := Act(s, i); Ordered(s'.lines, s'.threads[i], s'.passes[i])
  {
    var pc := s.threads[i];
    assert Placed(pc, |s.lines|);
    if Calm(Act(s, i).threads[i]) && !pc.StartPass? {
      MovedFrontier(pc, |s.lines|, Swaps(pc, s.lines), s.finished);
    }
  }

  /** A thread that links a node holds the lock of the last one, so no other is at it. */
  lemma LastIsFree(s: State, me: nat, i: nat)
    requires Shape(s) && LocksHeld(s) && AllPlaced(s) && me < |s.threads| && i < |s.threads| && i != me
    requires Appends(s.threads[i], |s.lines|)
    ensures !Holds(s.threads[me], |s.lines| - 1)
  {
    assert Placed(s.threads[i], |s.lines|);
    assert Holds(s.threads[i], |s.lines| - 1);
    assert s.locks[|s.lines| - 1] == HeldBy(i);
  }

  /** Linking a node puts no pair behind a calm pass, except the one that slips past it. */
  lemma AppendOrdered(lines: seq<Text>, line: Text, pc: Pc, pass: Pass)
    requires lines != [] && Placed(pc, |lines|) && !Holds(pc, |lines| - 1) && Ordered(lines, pc, pass)
    ensures Ordered(lines + [line], pc, PassAfterAppend(pass, pc, lines, line))
  {
  }

  /** A swap puts pairs out of order, or right, behind a calm pass only where they are recorded. */
  lemma SwapOrdered(lines: seq<Text>, j: nat, pc: Pc, pass: Pass)
    requires j + 1 < |lines| && Placed(pc, |lines|) && Ordered(lines, pc, pass)
    ensures Ordered(Swap(lines, j), pc, PassAfterSwap(pass, pc, Swap(lines, j), j))
  {
  }

  lemma OthersAction(s: State, me: nat, i: nat)
    requires Shape(s) && LocksHeld(s) && AllPlaced(s) && me < |s.threads| && i < |s.threads| && i != me && Enabled(s, i)
    requires Ordered(s.lines, s.threads[me], s.passes[me])
    ensures var s' := Act(s, i); Ordered(s'.lines, s'.threads[me], s'.passes[me])
  {
    var pc := s.threads[i];
    assert Placed(pc, |s.lines|) && Placed(s.threads[me], |s.lines|);
    if Swaps(pc, s.lines) {
      SwapOrdered(s.lines, pc.j, s.threads[me], s.passes[me]);
    } else if Appends(pc, |s.lines|) {
      LastIsFree(s, me, i);
      AppendOrdered(s.lines, pc.line, s.threads[me], s.passes[me]);
    }
  }

  lemma NextOrdered(initial: seq<Text>, s: State, e: Event)
    requires Inv(initial, s) && Possible(s, e) && AllOrdered(s)
    ensures AllOrdered(Next(s, e))
  {
    var s' := Next(s, e);
    forall t | 0 <= t < |s.threads|
      ensures Ordered(s'.lines, s'.threads[t], s'.passes[t])
    {
      assert Ordered(s.lines, s.threads[t], s.passes[t]);
      if e.Step? {
        if e.i == t {
          OwnAction(s, t);
        } else {
          OthersAction(s, t, e.i);
        }
      }
    }
  }

  lemma {:induction false} RunOrdered(initial: seq<Text>, s: State, events: seq<Event>)
    requires Inv(initial, s) && Runs(s, events) && AllOrdered(s)
    ensures Inv(initial, Run(s, events)) && AllOrdered(Run(s, events))
    decreases |events|
  {
    if events != [] {
      NextInv(initial, s, events[0]);
      NextOrdered(initial, s, events[0]);
      RunOrdered(initial, Next(s, events[0]), events[1..]);
    }
  }

  lemma FromInit(lines: seq<Text>, sorters: nat, appenders: nat, events: seq<Event>)
    requires lines != [] && Runs(Init(lines, sorters, appenders), events)
    ensures var s := Run(Init(lines, sorters, appenders), events); Inv(lines, s) && AllOrdered(s)
  {
    InitInv(lines, sorters, appenders);
    RunOrdered(lines, Init(lines, sorters, appenders), events);
  }

  /** Whether the line of node `k` has to stand behind that of the next. */
  predicate OutAt(lines: seq<Text>, k: nat) {
    k + 1 < |lines| && Less(lines[k + 1], lines[k])
  }

  function OutOfOrder(lines: seq<Text>): set<nat> {
    set k: nat | k < |lines| && OutAt(lines, k)
  }

  /** At the end of a calm pass all pairs are behind it. */
  lemma SlipsAreAll(lines: seq<Text>, pass: Pass)
    requires lines != [] && Ordered(lines, EndPass(true), pass)
    ensures pass.slips == OutOfOrder(lines) && (Sorted(lines) <==> pass.slips == {})
    ensures 1 <= pass.start <= |lines|
    ensures !pass.disturbed ==> Sorted(lines[..pass.start]) && forall k :: k in pass.slips ==> pass.start - 1 <= k
  {
    forall k: nat
      ensures k in pass.slips <==> OutAt(lines, k)
    {
    }
    if !pass.disturbed {
      NeighboursSuffice(lines[..pass.start]);
    }
    if pass.slips == {} {
      NeighboursSuffice(lines);
    } else {
      var k :| k in pass.slips;
      assert Less(lines[k + 1], lines[k]);
    }
  }

  /** When any thread ends a pass without a swap, the neighbours out of order are exactly its slips. Unless another thread
      has swapped behind it, these are only where a line was linked behind a greater one after it had seen the end of the
      list there, and the nodes that were there when the pass began are sorted. */
  lemma CalmPassMeansSorted(lines: seq<Text>, sorters: nat, appenders: nat, events: seq<Event>, me: nat)
    requires lines != [] && Runs(Init(lines, sorters, appenders), events) && me < sorters + appenders
    requires Run(Init(lines, sorters, appenders), events).threads[me] == EndPass(true)
    ensures var s := Run(Init(lines, sorters, appenders), events);
            var pass := s.passes[me];
            && pass.slips == OutOfOrder(s.lines) && (Sorted(s.lines) <==> pass.slips == {})
            && 1 <= pass.start <= |s.lines|
            && (!pass.disturbed ==> Sorted(s.lines[..pass.start]) && forall k :: k in pass.slips ==> pass.start - 1 <= k)
  {
    FromInit(lines, sorters, appenders, events);
    var s := Run(Init(lines, sorters, appenders), events);
    assert Ordered(s.lines, s.threads[me], s.passes[me]);
    SlipsAreAll(s.lines, s.passes[me]);
  }

  // ---------- a lone sorter ----------

  predicate Appender(pc: Pc) {
    pc.PushIdle? || pc.PushLock? || pc.PushAt? || pc.PushOn? || pc.PushDone?
  }

  /** All threads but `me` append, and nothing has disturbed the pass of `me`. */
  ghost predicate Lone(s: State, me: nat) {
    && Shape(s) && me < |s.threads| && !s.passes[me].disturbed
    && forall t :: 0 <= t < |s.threads| && t != me ==> Appender(s.threads[t])
  }

  lemma NextLone(s: State, me: nat, e: Event)
    requires Possible(s, e) && Lone(s, me)
    ensures Lone(Next(s, e), me)
  {
    if e.Step? {
      assert e.i != me ==> Appender(s.threads[e.i]);
    }
  }

  lemma {:induction false} RunLone(s: State, me: nat, events: seq<Event>)
    requires Runs(s, events) && Lone(s, me)
    ensures Lone(Run(s, events), me)
    decreases |events|
  {
    if events != [] {
      NextLone(s, me, events[0]);
      RunLone(Next(s, events[0]), me, events[1..]);
    }
  }

  /** With one sorter nothing disturbs a pass, so only appends can put lines out of order behind it. */
  lemma LoneSorter(lines: seq<Text>, appenders: nat, events: seq<Event>)
    requires lines != [] && Runs(Init(lines, 1, appenders), events)
    ensures !Run(Init(lines, 1, appenders), events).passes[0].disturbed
  {
    RunLone(Init(lines, 1, appenders), 0, events);
  }
}
